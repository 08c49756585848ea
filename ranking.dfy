/**
 * Ordering and ranking of the records (generate.py, lines 89 and 97-101):
 * `list.sort` with the length as key, a stable sort, and the rank printed
 * for each record, one more than the index `list.index` finds for it.
 */
module Ranking {
  import opened Sequences
  import opened Sweep

  /** Non-decreasing in length. */
  ghost predicate SortedByLength(s: seq<Candidate>) {
    forall i, j :: 0 <= i < j < |s| ==> s[i].length <= s[j].length
  }

  /** The records of length `k`, in their order in `s`. */
  function WithLength(s: seq<Candidate>, k: nat): seq<Candidate> {
    if s == [] then []
    else (if s[0].length == k then [s[0]] else []) + WithLength(s[1..], k)
  }

  /**
   * `t` is a stable reordering of `s`: for every length, the records of that
   * length come in the same order in both.  This also makes `t` a permutation
   * of `s` (StableIsPermutation).
   */
  ghost predicate StablyReordered(s: seq<Candidate>, t: seq<Candidate>) {
    forall k :: WithLength(t, k) == WithLength(s, k)
  }

  lemma {:induction false} WithLengthAppend(a: seq<Candidate>, b: seq<Candidate>, k: nat)
    ensures WithLength(a + b, k) == WithLength(a, k) + WithLength(b, k)
  {
    if a == [] {
      assert a + b == b;
    } else {
      var head := if a[0].length == k then [a[0]] else [];
      assert (a + b)[0] == a[0] && (a + b)[1..] == a[1..] + b;
      assert WithLength(a + b, k) == head + WithLength(a[1..] + b, k);
      WithLengthAppend(a[1..], b, k);
      assert WithLength(a, k) == head + WithLength(a[1..], k);
    }
  }

  /** Records all longer than `k` contribute nothing of length `k`. */
  lemma {:induction false} WithLengthOfLonger(s: seq<Candidate>, k: nat)
    requires forall i :: 0 <= i < |s| ==> s[i].length > k
    ensures WithLength(s, k) == []
  {
    if s != [] {
      assert forall i :: 0 <= i < |s[1..]| ==> s[1..][i] == s[i + 1];
      WithLengthOfLonger(s[1..], k);
    }
  }

  /** Records of length `k` are all kept, and nothing else is. */
  lemma {:induction false} WithLengthMembers(s: seq<Candidate>, k: nat)
    ensures forall c :: c in WithLength(s, k) <==> c in s && c.length == k
  {
    if s != [] {
      WithLengthMembers(s[1..], k);
      assert s == [s[0]] + s[1..];
    }
  }

  /** The multiset of a sequence is the sum over lengths of its records of each length. */
  lemma {:induction false} WithLengthCounts(s: seq<Candidate>, c: Candidate)
    ensures multiset(WithLength(s, c.length))[c] == multiset(s)[c]
  {
    if s != [] {
      WithLengthCounts(s[1..], c);
      assert s == [s[0]] + s[1..];
    }
  }

  /** A stable reordering is a permutation. */
  lemma StableIsPermutation(s: seq<Candidate>, t: seq<Candidate>)
    requires StablyReordered(s, t)
    ensures multiset(t) == multiset(s)
  {
    forall c ensures multiset(t)[c] == multiset(s)[c] {
      WithLengthCounts(s, c);
      WithLengthCounts(t, c);
    }
  }

  /** Putting `x` after every record no longer than it, and before the longer
      ones, keeps the order by length. */
  lemma InsertionSorted(s: seq<Candidate>, p: nat, x: Candidate)
    requires SortedByLength(s) && p <= |s|
    requires forall j :: 0 <= j < p ==> s[j].length <= x.length
    requires forall j :: p <= j < |s| ==> s[j].length > x.length
    ensures SortedByLength(s[..p] + [x] + s[p..])
  {
    var t := s[..p] + [x] + s[p..];
    assert forall i :: 0 <= i < p ==> t[i] == s[i];
    assert t[p] == x;
    assert forall i :: p < i < |t| ==> t[i] == s[i - 1];
  }

  /** The same insertion, seen per length: it files `x` behind the records of
      its length that are already there, as appending it would. */
  lemma InsertionStable(s: seq<Candidate>, p: nat, x: Candidate, k: nat)
    requires p <= |s|
    requires forall j :: p <= j < |s| ==> s[j].length > x.length
    ensures WithLength(s[..p] + [x] + s[p..], k) == WithLength(s + [x], k)
  {
    var a, b := s[..p], s[p..];
    assert s == a + b;
    WithLengthAppend(a + [x], b, k);
    WithLengthAppend(a, [x], k);
    WithLengthAppend(a + b, [x], k);
    WithLengthAppend(a, b, k);
    if k == x.length {
      LongerTail(s, p, k);
    } else {
      assert WithLength([x], k) == [] by {
        assert [x][1..] == [];
      }
    }
  }

  /** The records past the insertion point, all longer than `k`, have none of length `k`. */
  lemma LongerTail(s: seq<Candidate>, p: nat, k: nat)
    requires p <= |s|
    requires forall j :: p <= j < |s| ==> s[j].length > k
    ensures WithLength(s[p..], k) == []
  {
    assert forall j :: 0 <= j < |s[p..]| ==> s[p..][j] == s[p + j];
    WithLengthOfLonger(s[p..], k);
  }

  /**
   * `base64_results.sort(key=lambda x: x['length'])`, modelled by insertion
   * sort: the result is ordered by length and is a stable reordering of the
   * input, which determines it (SortIsUnique), so any stable sort agrees.
   */
  method StableSortByLength(records: seq<Candidate>) returns (sorted: seq<Candidate>)
    ensures SortedByLength(sorted)
    ensures StablyReordered(records, sorted)
    ensures multiset(sorted) == multiset(records)
  {
    sorted := [];
    for i := 0 to |records|
      invariant SortedByLength(sorted)
      invariant StablyReordered(records[..i], sorted)
    {
      var x := records[i];
      var p := |sorted|;
      while p > 0 && sorted[p - 1].length > x.length
        invariant 0 <= p <= |sorted|
        invariant forall j :: p <= j < |sorted| ==> sorted[j].length > x.length
      {
        p := p - 1;
      }
      InsertionSorted(sorted, p, x);
      forall k ensures WithLength(sorted[..p] + [x] + sorted[p..], k) == WithLength(records[..i + 1], k) {
        InsertionStable(sorted, p, x, k);
        assert records[..i + 1] == records[..i] + [x];
        WithLengthAppend(sorted, [x], k);
        WithLengthAppend(records[..i], [x], k);
      }
      sorted := sorted[..p] + [x] + sorted[p..];
    }
    assert records[..|records|] == records;
    StableIsPermutation(records, sorted);
  }

  lemma SortedTail(s: seq<Candidate>)
    requires SortedByLength(s) && s != []
    ensures SortedByLength(s[1..])
  {
    assert forall i :: 0 <= i < |s[1..]| ==> s[1..][i] == s[i + 1];
  }

  /** In a length-ordered sequence no record is shorter than the first. */
  lemma NothingShorterThanFirst(s: seq<Candidate>, k: nat)
    requires SortedByLength(s) && s != [] && k < s[0].length
    ensures WithLength(s, k) == []
  {
    assert forall i :: 0 <= i < |s| ==> s[i].length >= s[0].length;
    WithLengthOfLonger(s, k);
  }

  /** Stable reorderings that are both length-ordered start with the same record. */
  lemma SameFirst(s: seq<Candidate>, t: seq<Candidate>)
    requires SortedByLength(s) && SortedByLength(t)
    requires StablyReordered(s, t)
    requires s != [] && t != []
    ensures s[0] == t[0]
    ensures WithLength(s, s[0].length)[1..] == WithLength(s[1..], s[0].length)
    ensures WithLength(t, t[0].length)[1..] == WithLength(t[1..], t[0].length)
  {
    var m, n := s[0].length, t[0].length;
    if m < n {
      NothingShorterThanFirst(t, m);
      assert false;
    } else if n < m {
      NothingShorterThanFirst(s, n);
      assert false;
    }
    assert WithLength(s, m) == [s[0]] + WithLength(s[1..], m);
    assert WithLength(t, m) == [t[0]] + WithLength(t[1..], m);
    assert WithLength(s, m)[0] == s[0];
    assert WithLength(t, m)[0] == t[0];
  }

  /** Two length-ordered stable reorderings of the same records are equal:
      the result of a stable sort by length does not depend on the algorithm. */
  lemma {:induction false} SortIsUnique(s: seq<Candidate>, t: seq<Candidate>)
    requires SortedByLength(s) && SortedByLength(t)
    requires StablyReordered(s, t)
    ensures s == t
    decreases |s|
  {
    if s == [] || t == [] {
      if s != [] {
        WithLengthMembers(s, s[0].length);
        WithLengthMembers(t, s[0].length);
        assert false;
      } else if t != [] {
        WithLengthMembers(s, t[0].length);
        WithLengthMembers(t, t[0].length);
        assert false;
      }
    } else {
      SameFirst(s, t);
      var m := s[0].length;
      forall k ensures WithLength(t[1..], k) == WithLength(s[1..], k) {
        if k != m {
          assert WithLength(s, k) == WithLength(s[1..], k);
          assert WithLength(t, k) == WithLength(t[1..], k);
        }
      }
      SortedTail(s);
      SortedTail(t);
      SortIsUnique(s[1..], t[1..]);
      assert s == [s[0]] + s[1..] && t == [t[0]] + t[1..];
    }
  }

  /** `list.index`: the first position holding a value equal to `x`. */
  method IndexOf(s: seq<Candidate>, x: Candidate) returns (k: nat)
    requires x in s
    ensures k < |s| && s[k] == x
    ensures forall j :: 0 <= j < k ==> s[j] != x
  {
    k := 0;
    while s[k] != x
      invariant k < |s|
      decreases |s| - k
      invariant forall j :: 0 <= j < k ==> s[j] != x
      invariant x in s[k..]
    {
      assert s[k..] == [s[k]] + s[k + 1..];
      k := k + 1;
    }
  }

  /**
   * The rank printed before each payload: one more than the index of the
   * first record equal to it.  Records are never equal when their commands
   * differ, so then each rank is the record's 1-based position.
   */
  method Ranks(sorted: seq<Candidate>) returns (ranks: seq<nat>)
    ensures |ranks| == |sorted|
    ensures forall i :: 0 <= i < |sorted| ==>
              1 <= ranks[i] <= i + 1 && sorted[ranks[i] - 1] == sorted[i]
              && (forall j :: 0 <= j < ranks[i] - 1 ==> sorted[j] != sorted[i])
    ensures Distinct(sorted) ==> forall i :: 0 <= i < |sorted| ==> ranks[i] == i + 1
  {
    ranks := [];
    for i := 0 to |sorted|
      invariant |ranks| == i
      invariant forall m :: 0 <= m < i ==>
                  1 <= ranks[m] <= m + 1 && sorted[ranks[m] - 1] == sorted[m]
                  && (forall j :: 0 <= j < ranks[m] - 1 ==> sorted[j] != sorted[m])
    {
      var index := IndexOf(sorted, sorted[i]);
      ranks := ranks + [index + 1];
    }
    if Distinct(sorted) {
      forall i | 0 <= i < |sorted| ensures ranks[i] == i + 1 {
        var r := ranks[i] - 1;
        assert sorted[r] == sorted[i];
      }
    }
  }
}
