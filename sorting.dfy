/** Ascending order of a `vector<uint32_t>`, as `std::sort` leaves it. */
module Sorting {
  import opened ColumnLayout

  predicate Ascending(s: seq<int>)
  {
    forall p, q :: 0 <= p < q < |s| ==> s[p] <= s[q]
  }

  predicate StrictlyAscending(s: seq<int>)
  {
    forall p, q :: 0 <= p < q < |s| ==> s[p] < s[q]
  }

  predicate Distinct(s: seq<int>)
  {
    forall p, q :: 0 <= p < q < |s| ==> s[p] != s[q]
  }

  /** Puts `x` into its place in an ascending sequence. */
  function Insert(x: uint32, s: seq<uint32>): (r: seq<uint32>)
    requires Ascending(s)
    ensures Ascending(r)
    ensures multiset(r) == multiset(s) + multiset{x}
  {
    if s == [] then [x]
    else if x <= s[0] then [x] + s
    else
      var t := Insert(x, s[1..]);
      assert s == [s[0]] + s[1..];
      HeadBelowTail(s, x, t);
      [s[0]] + t
  }

  /** Prefixing an ascending sequence with a value no larger than any of its
      elements keeps it ascending. */
  lemma HeadBelowTail(s: seq<uint32>, x: uint32, t: seq<uint32>)
    requires Ascending(s) && |s| > 0 && s[0] < x
    requires Ascending(t) && multiset(t) == multiset(s[1..]) + multiset{x}
    ensures Ascending([s[0]] + t)
  {
    forall k | 0 <= k < |t| ensures s[0] <= t[k] {
      assert t[k] in multiset(t);
      if t[k] != x {
        assert t[k] in s[1..];
      }
    }
  }

  /** Sorts by insertion: the result is ascending and a permutation of `s`. */
  function Sort(s: seq<uint32>): (r: seq<uint32>)
    ensures Ascending(r)
    ensures multiset(r) == multiset(s)
  {
    if s == [] then []
    else
      assert s == [s[0]] + s[1..];
      Insert(s[0], Sort(s[1..]))
  }

  /** A sequence has no repeated element exactly when no element occurs twice in its multiset. */
  lemma {:induction false} DistinctIffSingleOccurrences(s: seq<int>)
    ensures Distinct(s) <==> forall x :: multiset(s)[x] <= 1
  {
    if s != [] {
      var t := s[1..];
      assert s == [s[0]] + t;
      DistinctIffSingleOccurrences(t);
      if Distinct(s) {
        assert Distinct(t) by {
          forall p, q | 0 <= p < q < |t| ensures t[p] != t[q] {
            assert t[p] == s[p + 1] && t[q] == s[q + 1];
          }
        }
        assert s[0] !in t by {
          forall k | 0 <= k < |t| ensures t[k] != s[0] {
            assert t[k] == s[k + 1];
          }
        }
      }
      if forall x :: multiset(s)[x] <= 1 {
        forall x ensures multiset(t)[x] <= 1 {
          assert multiset(s)[x] == multiset(t)[x] + (if x == s[0] then 1 else 0);
        }
        assert multiset(s)[s[0]] <= 1;
        assert s[0] !in multiset(t);
        forall p, q | 0 <= p < q < |s| ensures s[p] != s[q] {
          if p > 0 {
            assert s[p] == t[p - 1] && s[q] == t[q - 1];
          } else {
            assert s[q] == t[q - 1] && t[q - 1] in multiset(t);
          }
        }
      }
    }
  }

  /** Sorting a sequence without repetitions gives a strictly ascending one. */
  lemma SortDistinctIsStrict(s: seq<uint32>)
    requires Distinct(s)
    ensures StrictlyAscending(Sort(s))
  {
    var r := Sort(s);
    DistinctIffSingleOccurrences(s);
    DistinctIffSingleOccurrences(r);
  }
}
