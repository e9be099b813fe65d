/** Order-preserving filtering of sequences, the shape of Python's comprehension
    `[x for x in s if keep(x)]`, `str.replace(c, '')` and SQL `WHERE`. */
module Seqs {

  function Filter<T(!new)>(s: seq<T>, keep: T -> bool): (r: seq<T>)
    ensures |r| <= |s|
    ensures forall x :: x in r <==> x in s && keep(x)
  {
    if s == [] then []
    else if keep(s[0]) then [s[0]] + Filter(s[1..], keep)
    else Filter(s[1..], keep)
  }

  /** Filtering distributes over concatenation, so it keeps the relative order of what it keeps. */
  lemma {:induction false} FilterAppend<T(!new)>(a: seq<T>, b: seq<T>, keep: T -> bool)
    ensures Filter(a + b, keep) == Filter(a, keep) + Filter(b, keep)
  {
    if a == [] {
      assert a + b == b;
    } else {
      assert (a + b)[0] == a[0];
      assert (a + b)[1..] == a[1..] + b;
      FilterAppend(a[1..], b, keep);
    }
  }

  /** Filtering with a predicate every element already satisfies changes nothing. */
  lemma {:induction false} FilterAllKept<T(!new)>(s: seq<T>, keep: T -> bool)
    requires forall i :: 0 <= i < |s| ==> keep(s[i])
    ensures Filter(s, keep) == s
  {
    if s != [] {
      FilterAllKept(s[1..], keep);
    }
  }

  /** Filtering keeps every kept element as many times as it occurs and drops the rest. */
  lemma {:induction false} FilterCount<T(!new)>(s: seq<T>, keep: T -> bool, x: T)
    ensures multiset(Filter(s, keep))[x] == if keep(x) then multiset(s)[x] else 0
  {
    if s != [] {
      FilterCount(s[1..], keep, x);
      assert s == [s[0]] + s[1..];
    }
  }

  /** The largest key, or 0 for an empty sequence: SQLite gives a new row the largest rowid
      in use plus one, and rowid 1 in an empty table. */
  function MaxKey<T>(s: seq<T>, key: T -> int): (r: int)
    ensures r >= 0
    ensures forall i :: 0 <= i < |s| ==> key(s[i]) <= r
    ensures r > 0 ==> exists i :: 0 <= i < |s| && key(s[i]) == r
  {
    if s == [] then 0
    else
      var rest := MaxKey(s[1..], key);
      if key(s[0]) > rest then key(s[0]) else rest
  }

  ghost predicate StrictlyIncreasing<T(!new)>(s: seq<T>, key: T -> int) {
    forall i, j :: 0 <= i < j < |s| ==> key(s[i]) < key(s[j])
  }

  /** A subsequence of a strictly increasing sequence is strictly increasing. */
  lemma {:induction false} FilterIncreasing<T(!new)>(s: seq<T>, keep: T -> bool, key: T -> int)
    requires StrictlyIncreasing(s, key)
    ensures StrictlyIncreasing(Filter(s, keep), key)
  {
    if s != [] {
      var rest := Filter(s[1..], keep);
      assert StrictlyIncreasing(s[1..], key) by {
        forall i, j | 0 <= i < j < |s[1..]| ensures key(s[1..][i]) < key(s[1..][j]) {
          assert s[1..][i] == s[i + 1] && s[1..][j] == s[j + 1];
        }
      }
      FilterIncreasing(s[1..], keep, key);
      if keep(s[0]) {
        forall k | 0 <= k < |rest| ensures key(s[0]) < key(rest[k]) {
          assert rest[k] in s[1..];
          var m :| 0 <= m < |s[1..]| && s[1..][m] == rest[k];
          assert s[m + 1] == rest[k];
        }
        var r := [s[0]] + rest;
        forall i, j | 0 <= i < j < |r| ensures key(r[i]) < key(r[j]) {
          if i == 0 {
            assert r[j] == rest[j - 1];
          } else {
            assert r[i] == rest[i - 1] && r[j] == rest[j - 1];
          }
        }
      }
    }
  }
}
