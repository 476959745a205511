/** Python's stable `sorted(xs, key=...)` for the two-component keys the
    extractors sort by (a line coordinate first, then a column coordinate). */
module Sorting {

  /** Lexicographic order on `(primary, secondary)` keys. */
  predicate KeyLeq(a: (real, real), b: (real, real)) {
    a.0 < b.0 || (a.0 == b.0 && a.1 <= b.1)
  }

  predicate SortedBy<T>(s: seq<T>, key: T -> (real, real)) {
    forall a, b | 0 <= a < b < |s| :: KeyLeq(key(s[a]), key(s[b]))
  }

  /** Puts `x` after every element whose key is not greater than its own. */
  function InsertByKey<T>(x: T, s: seq<T>, key: T -> (real, real)): (r: seq<T>)
    ensures multiset(r) == multiset(s) + multiset{x}
    ensures |r| == |s| + 1
  {
    if s == [] then [x]
    else if !KeyLeq(key(s[0]), key(x)) then [x] + s
    else
      assert s == [s[0]] + s[1..];
      [s[0]] + InsertByKey(x, s[1..], key)
  }

  lemma {:induction false} InsertKeepsSorted<T>(x: T, s: seq<T>, key: T -> (real, real))
    requires SortedBy(s, key)
    ensures SortedBy(InsertByKey(x, s, key), key)
  {
    if s != [] {
      var r := InsertByKey(x, s, key);
      if !KeyLeq(key(s[0]), key(x)) {
        forall a, b | 0 <= a < b < |r| ensures KeyLeq(key(r[a]), key(r[b])) {
          if a == 0 && b > 1 {
            assert KeyLeq(key(s[0]), key(s[b - 1]));
          }
        }
      } else {
        var rest := InsertByKey(x, s[1..], key);
        InsertKeepsSorted(x, s[1..], key);
        forall b | 0 <= b < |rest| ensures KeyLeq(key(s[0]), key(rest[b])) {
          var y := rest[b];
          assert y in multiset(rest);
          if y != x {
            assert y in multiset(s[1..]);
            var k :| 0 <= k < |s[1..]| && s[1..][k] == y;
            assert s[k + 1] == y;
          }
        }
        forall a, b | 0 <= a < b < |r| ensures KeyLeq(key(r[a]), key(r[b])) {
          if a == 0 {
            assert r[b] == rest[b - 1];
          } else {
            assert r[a] == rest[a - 1] && r[b] == rest[b - 1];
          }
        }
      }
    }
  }

  /** `sorted(s, key=key)`: an insertion sort, which keeps equal keys in input order. */
  function SortByKey<T>(s: seq<T>, key: T -> (real, real)): (r: seq<T>)
    ensures SortedBy(r, key)
    ensures multiset(r) == multiset(s)
    ensures |r| == |s|
  {
    if s == [] then []
    else
      var init := s[..|s| - 1];
      assert s == init + [s[|s| - 1]];
      InsertKeepsSorted(s[|s| - 1], SortByKey(init, key), key);
      InsertByKey(s[|s| - 1], SortByKey(init, key), key)
  }
}
