/**
 * A table is a sequence of rows in insertion order, each row carrying a string
 * primary key. These are the row-level primitives behind `WHERE id = ?`,
 * `WHERE <condition>`, `COUNT(*)` and `DELETE`.
 */
module Tables {
  import opened Wrappers

  /** The primary key is unique: no two rows share one. */
  ghost predicate UniqueKeys<T(!new)>(s: seq<T>, key: T -> string) {
    forall i, j :: 0 <= i < j < |s| ==> key(s[i]) != key(s[j])
  }

  /** Position of the first row whose key is `k`. */
  function IndexOf<T(!new)>(s: seq<T>, key: T -> string, k: string): (r: Option<nat>)
    ensures r.Some? ==> r.value < |s| && key(s[r.value]) == k
    ensures r.Some? ==> forall j :: 0 <= j < r.value ==> key(s[j]) != k
    ensures r.None? <==> forall j :: 0 <= j < |s| ==> key(s[j]) != k
  {
    if s == [] then None
    else if key(s[0]) == k then Some(0)
    else
      match IndexOf(s[1..], key, k)
      case None => None
      case Some(i) => Some(i + 1)
  }

  /** Two tables whose keys agree position by position find a key at the same position. */
  lemma {:induction false} IndexOfSameKeys<T(!new)>(a: seq<T>, b: seq<T>, key: T -> string, k: string)
    requires |a| == |b| && forall i :: 0 <= i < |a| ==> key(a[i]) == key(b[i])
    ensures IndexOf(a, key, k) == IndexOf(b, key, k)
  {
    if a != [] {
      IndexOfSameKeys(a[1..], b[1..], key, k);
    }
  }

  /** The first position holding key `k` is the one `IndexOf` reports. */
  lemma {:induction false} IndexOfAt<T(!new)>(s: seq<T>, key: T -> string, k: string, i: nat)
    requires i < |s| && key(s[i]) == k
    requires forall j :: 0 <= j < i ==> key(s[j]) != k
    ensures IndexOf(s, key, k) == Some(i)
  {
    if i > 0 {
      IndexOfAt(s[1..], key, k, i - 1);
    }
  }

  /** `SELECT * FROM t WHERE id = ?` */
  function Lookup<T(!new)>(s: seq<T>, key: T -> string, k: string): (r: Option<T>)
    ensures r.Some? ==> r.value in s && key(r.value) == k
    ensures r.None? <==> forall x :: x in s ==> key(x) != k
  {
    match IndexOf(s, key, k)
    case None => None
    case Some(i) => Some(s[i])
  }

  /** With unique keys, the row at position `i` is the one `Lookup` finds. */
  lemma LookupUnique<T(!new)>(s: seq<T>, key: T -> string, i: nat)
    requires UniqueKeys(s, key) && i < |s|
    ensures IndexOf(s, key, key(s[i])) == Some(i)
    ensures Lookup(s, key, key(s[i])) == Some(s[i])
  {
  }

  /** `WHERE p`, keeping table order. */
  function Filter<T(!new)>(s: seq<T>, p: T -> bool): (r: seq<T>)
    ensures forall x :: x in r <==> x in s && p(x)
    ensures (forall x :: x in s ==> !p(x)) ==> r == []
    ensures |r| <= |s|
  {
    if s == [] then []
    else
      var init := s[..|s| - 1];
      assert s == init + [s[|s| - 1]];
      Filter(init, p) + (if p(s[|s| - 1]) then [s[|s| - 1]] else [])
  }

  lemma FilterAppend<T(!new)>(s: seq<T>, x: T, p: T -> bool)
    ensures Filter(s + [x], p) == Filter(s, p) + (if p(x) then [x] else [])
  {
    assert (s + [x])[..|s|] == s;
  }

  lemma {:induction false} FilterAll<T(!new)>(s: seq<T>, p: T -> bool)
    requires forall x :: x in s ==> p(x)
    ensures Filter(s, p) == s
  {
    if s != [] {
      var init, last := s[..|s| - 1], s[|s| - 1];
      assert s == init + [last];
      FilterAll(init, p);
      assert p(last);
    }
  }

  /** `SELECT COUNT(*) FROM t WHERE p` */
  function Count<T(!new)>(s: seq<T>, p: T -> bool): (n: nat)
    ensures n <= |s|
    ensures n == 0 <==> forall x :: x in s ==> !p(x)
  {
    |Filter(s, p)|
  }

  /** `DELETE FROM t WHERE id = ?`: every other row stays, in order. */
  function RemoveKey<T(!new)>(s: seq<T>, key: T -> string, k: string): (r: seq<T>)
    ensures forall x :: x in r <==> x in s && key(x) != k
  {
    if s == [] then []
    else
      var init, last := s[..|s| - 1], s[|s| - 1];
      assert s == init + [last];
      RemoveKey(init, key, k) + (if key(last) != k then [last] else [])
  }

  /** Deleting a key keeps the other rows in order, so it keeps keys unique. */
  lemma {:induction false} RemoveKeepsUnique<T(!new)>(s: seq<T>, key: T -> string, k: string)
    ensures UniqueKeys(s, key) ==> UniqueKeys(RemoveKey(s, key, k), key)
  {
    if s != [] && UniqueKeys(s, key) {
      var init, last := s[..|s| - 1], s[|s| - 1];
      RemoveKeepsUnique(init, key, k);
      forall x | x in RemoveKey(init, key, k) ensures key(x) != key(last) {
        var j :| 0 <= j < |init| && init[j] == x;
        assert s[j] == x;
      }
    }
  }

  /** Deleting a key that is not present changes nothing. */
  lemma {:induction false} RemoveAbsentKey<T(!new)>(s: seq<T>, key: T -> string, k: string)
    requires forall x :: x in s ==> key(x) != k
    ensures RemoveKey(s, key, k) == s
  {
    if s != [] {
      var init, last := s[..|s| - 1], s[|s| - 1];
      assert s == init + [last];
      RemoveAbsentKey(init, key, k);
    }
  }

  /** Deleting the key of the only row holding it removes exactly that row. */
  lemma {:induction false} RemoveAt<T(!new)>(s: seq<T>, key: T -> string, k: string, i: nat)
    requires i < |s| && key(s[i]) == k
    requires forall j :: 0 <= j < |s| && j != i ==> key(s[j]) != k
    ensures RemoveKey(s, key, k) == s[..i] + s[i + 1..]
  {
    var init, last := s[..|s| - 1], s[|s| - 1];
    if i == |s| - 1 {
      RemoveAbsentKey(init, key, k);
    } else {
      assert s == init + [last];
      RemoveAt(init, key, k, i);
      assert RemoveKey(s, key, k) == RemoveKey(init, key, k) + [last];
      SpliceLast(s, i);
    }
  }

  /** Cutting row `i` out of a sequence commutes with appending its last row. */
  lemma SpliceLast<T>(s: seq<T>, i: nat)
    requires i < |s| - 1
    ensures s[..|s| - 1][..i] + s[..|s| - 1][i + 1..] + [s[|s| - 1]] == s[..i] + s[i + 1..]
  {
    var init := s[..|s| - 1];
    assert init[..i] == s[..i];
    assert init[i + 1..] + [s[|s| - 1]] == s[i + 1..];
  }

  /** Deleting the key of row `i` removes exactly that row. */
  lemma RemovePresentKey<T(!new)>(s: seq<T>, key: T -> string, i: nat)
    requires UniqueKeys(s, key) && i < |s|
    ensures RemoveKey(s, key, key(s[i])) == s[..i] + s[i + 1..]
  {
    RemoveAt(s, key, key(s[i]), i);
  }

  /** A filtered table keeps its rows in order, so it keeps unique keys. */
  lemma {:induction false} FilterKeepsUnique<T(!new)>(s: seq<T>, p: T -> bool, key: T -> string)
    ensures UniqueKeys(s, key) ==> UniqueKeys(Filter(s, p), key)
  {
    if s != [] && UniqueKeys(s, key) {
      var init, last := s[..|s| - 1], s[|s| - 1];
      FilterKeepsUnique(init, p, key);
      var f := Filter(init, p);
      if p(last) {
        forall x | x in f ensures key(x) != key(last) {
          var j :| 0 <= j < |init| && init[j] == x;
        }
      }
    }
  }

  /** Replaces the row at `i` by one with the same key; keys stay unique. */
  lemma ReplaceKeepsUnique<T(!new)>(s: seq<T>, key: T -> string, i: nat, x: T)
    requires i < |s|
    ensures UniqueKeys(s, key) && key(x) == key(s[i]) ==> UniqueKeys(s[i := x], key)
  {
    var r := s[i := x];
    if UniqueKeys(s, key) && key(x) == key(s[i]) {
      forall a, b | 0 <= a < b < |r| ensures key(r[a]) != key(r[b]) {
        assert key(r[a]) == key(s[a]) && key(r[b]) == key(s[b]);
      }
    }
  }

  /** Appending a row with a key not yet present keeps keys unique. */
  lemma AppendKeepsUnique<T(!new)>(s: seq<T>, key: T -> string, x: T)
    ensures UniqueKeys(s, key) && (forall y :: y in s ==> key(y) != key(x)) ==> UniqueKeys(s + [x], key)
  {
    var r := s + [x];
    if UniqueKeys(s, key) && (forall y :: y in s ==> key(y) != key(x)) {
      forall a, b | 0 <= a < b < |r| ensures key(r[a]) != key(r[b]) {
        if b == |s| {
          assert r[a] in s;
        }
      }
    }
  }

  /** A prefix one longer is the prefix with the next row appended. */
  lemma PrefixGrows<T>(s: seq<T>, i: nat)
    requires i < |s|
    ensures s[..i + 1] == s[..i] + [s[i]]
  {
  }

  /** Filtering by two predicates that agree everywhere gives the same rows. */
  lemma {:induction false} FilterSame<T(!new)>(s: seq<T>, p: T -> bool, q: T -> bool)
    requires forall x :: p(x) == q(x)
    ensures Filter(s, p) == Filter(s, q)
  {
    if s != [] {
      FilterSame(s[..|s| - 1], p, q);
    }
  }

  /** In a sequence without repeated rows, every row occurs at most once. */
  lemma {:induction false} NoRepeatsCount<T(!new)>(s: seq<T>, x: T)
    requires forall a, b :: 0 <= a < b < |s| ==> s[a] != s[b]
    ensures multiset(s)[x] <= 1
  {
    if s != [] {
      var init, last := s[..|s| - 1], s[|s| - 1];
      assert s == init + [last];
      NoRepeatsCount(init, x);
      if last == x {
        assert x !in init;
      }
    }
  }

  /** A reordering of a sequence without repeats has no repeats. */
  lemma PermutationKeepsDistinct<T(!new)>(s: seq<T>, t: seq<T>)
    requires multiset(s) == multiset(t)
    requires forall a, b :: 0 <= a < b < |s| ==> s[a] != s[b]
    ensures forall a, b :: 0 <= a < b < |t| ==> t[a] != t[b]
  {
    forall a, b | 0 <= a < b < |t| ensures t[a] != t[b] {
      NoRepeatsCount(s, t[a]);
      assert t == t[..b] + t[b..];
      assert t[a] == t[..b][a] && t[b] == t[b..][0];
      assert t[a] in multiset(t[..b]) && t[b] in multiset(t[b..]);
    }
  }

  /** A reordering of a table with unique keys has unique keys. */
  lemma PermutationKeepsUniqueKeys<T(!new)>(s: seq<T>, t: seq<T>, key: T -> string)
    requires multiset(s) == multiset(t) && UniqueKeys(s, key)
    ensures UniqueKeys(t, key)
  {
    assert forall a, b :: 0 <= a < b < |s| ==> s[a] != s[b];
    PermutationKeepsDistinct(s, t);
    forall a, b | 0 <= a < b < |t| ensures key(t[a]) != key(t[b]) {
      assert t[a] in multiset(s) && t[b] in multiset(s);
      var i :| 0 <= i < |s| && s[i] == t[a];
      var j :| 0 <= j < |s| && s[j] == t[b];
    }
  }
}
