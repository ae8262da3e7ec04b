/**
 Candidate lists. Every list the solver builds starts as [1, ..., 9] or as
 a one-element list and only ever loses elements, so it stays strictly
 ascending within 1..9; that is the order in which the search tries the
 values of a cell.
 */
module CandidateLists {

  /** Strictly ascending, every element a digit 1..9. */
  predicate CandidateList(l: seq<int>) {
    && (forall i | 0 <= i < |l| :: 1 <= l[i] <= 9)
    && (forall i, j | 0 <= i < j < |l| :: l[i] < l[j])
  }

  /** No value occurs twice. */
  predicate Distinct(l: seq<int>) {
    forall i, j | 0 <= i < j < |l| :: l[i] != l[j]
  }

  /** The list of every blank cell before any propagation. */
  const AllDigits: seq<int> := [1, 2, 3, 4, 5, 6, 7, 8, 9]

  /** `l` with every occurrence of `v` taken out, the rest in order. */
  function Without(l: seq<int>, v: int): (r: seq<int>)
    ensures forall x :: x in r <==> x in l && x != v
    ensures |r| <= |l|
    ensures Distinct(l) ==> Distinct(r)
  {
    if l == [] then []
    else if l[0] == v then Without(l[1..], v)
    else
      var rest := Without(l[1..], v);
      assert Distinct(l) ==> l[0] !in rest;
      [l[0]] + rest
  }

  /** Index `i` holds the first occurrence of `v` in `l`. */
  predicate FirstAt(l: seq<int>, v: int, i: int) {
    0 <= i < |l| && l[i] == v && v !in l[..i]
  }

  /**
   Python's `list.remove`: drops the first occurrence of `v` and keeps the
   rest in order. The solver only calls it after checking that `v` is in
   the list; on an absent value Python raises `ValueError`, which the model
   does not reach and answers with the list unchanged.
   */
  function RemoveFirst(l: seq<int>, v: int): (r: seq<int>)
    ensures v in l ==> |r| == |l| - 1
    ensures v !in l ==> r == l
    ensures multiset(r) == multiset(l) - multiset{v}
  {
    if l == [] then []
    else
      assert l == [l[0]] + l[1..];
      if l[0] == v then l[1..]
      else [l[0]] + RemoveFirst(l[1..], v)
  }

  /**
   What `list.remove` takes out is the first occurrence of `v`; everything
   before and after it stays, in order.
   */
  lemma {:induction false} RemoveFirstOccurrence(l: seq<int>, v: int)
    requires v in l
    ensures exists i | FirstAt(l, v, i) :: RemoveFirst(l, v) == l[..i] + l[i + 1..]
  {
    if l[0] == v {
      assert FirstAt(l, v, 0) && RemoveFirst(l, v) == l[..0] + l[0 + 1..];
    } else {
      assert v in l[1..] by { assert l == [l[0]] + l[1..]; }
      RemoveFirstOccurrence(l[1..], v);
      var rest := RemoveFirst(l[1..], v);
      var j :| FirstAt(l[1..], v, j) && rest == l[1..][..j] + l[1..][j + 1..];
      FirstAtCons(l, v, j, rest);
    }
  }

  /** A first occurrence in the tail moves one place right under a different head. */
  lemma FirstAtCons(l: seq<int>, v: int, j: int, rest: seq<int>)
    requires |l| > 0 && l[0] != v && FirstAt(l[1..], v, j)
    requires rest == l[1..][..j] + l[1..][j + 1..]
    ensures FirstAt(l, v, j + 1) && [l[0]] + rest == l[..j + 1] + l[j + 2..]
  {
    assert l[..j + 1] == [l[0]] + l[1..][..j];
    assert l[j + 2..] == l[1..][j + 1..];
  }

  /**
   On a list holding `v` twice, `list.remove` leaves a `v` behind: one call
   is the filter `Without` only on lists without repeats.
   */
  lemma RemoveFirstLeavesRepeat(l: seq<int>, v: int)
    requires multiset(l)[v] >= 2
    ensures v in RemoveFirst(l, v) && RemoveFirst(l, v) != Without(l, v)
  {
    assert multiset(RemoveFirst(l, v))[v] >= 1;
  }

  /** On a list without repeats, removing the first `v` removes every `v`. */
  lemma {:induction false} RemoveFirstDistinct(l: seq<int>, v: int)
    requires Distinct(l)
    ensures RemoveFirst(l, v) == Without(l, v)
  {
    if l != [] {
      assert Distinct(l[1..]);
      RemoveFirstDistinct(l[1..], v);
      if l[0] == v {
        assert v !in l[1..];
        WithoutAbsent(l[1..], v);
      }
    }
  }

  /** Removing a value that is not there changes nothing. */
  lemma {:induction false} WithoutAbsent(l: seq<int>, v: int)
    requires v !in l
    ensures Without(l, v) == l
  {
    if l != [] {
      WithoutAbsent(l[1..], v);
      assert l == [l[0]] + l[1..];
    }
  }

  /** Removing the same value twice is removing it once. */
  lemma WithoutIdempotent(l: seq<int>, v: int)
    ensures Without(Without(l, v), v) == Without(l, v)
  {
    WithoutAbsent(Without(l, v), v);
  }

  /** Removing a value keeps a list a candidate list. */
  lemma {:induction false} WithoutCandidateList(l: seq<int>, v: int)
    requires CandidateList(l)
    ensures CandidateList(Without(l, v))
  {
    if l != [] {
      WithoutCandidateList(l[1..], v);
      if l[0] != v {
        var rest := Without(l[1..], v);
        forall x | x in rest ensures l[0] < x {
          var j :| 0 <= j < |l[1..]| && l[1..][j] == x;
          assert l[j + 1] == x;
        }
        var r := [l[0]] + rest;
        forall i, j | 0 <= i < j < |r| ensures r[i] < r[j] {
          if i == 0 {
            assert r[j] == rest[j - 1] && rest[j - 1] in rest;
          }
        }
      }
    }
  }

  /** A candidate list has no repeats. */
  lemma CandidateListDistinct(l: seq<int>)
    requires CandidateList(l)
    ensures Distinct(l)
  {
  }

  /** A candidate list holds at most nine values. */
  lemma {:induction false} CandidateListShort(l: seq<int>)
    requires CandidateList(l)
    ensures |l| <= 9
    ensures l != [] ==> |l| <= 10 - l[0]
  {
    if |l| > 1 {
      CandidateListShort(l[1..]);
      assert l[1..][0] == l[1] > l[0];
    }
  }

  /** A candidate list is empty exactly when it holds none of the digits. */
  lemma NoDigitEmpty(l: seq<int>)
    requires CandidateList(l)
    ensures l == [] <==> forall x | 1 <= x <= 9 :: x !in l
  {
    if l != [] {
      assert l[0] in l && 1 <= l[0] <= 9;
    }
  }

  lemma AllDigitsCandidateList()
    ensures CandidateList(AllDigits)
  {
  }
}
