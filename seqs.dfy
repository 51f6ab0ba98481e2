/** Order-keeping filtering of sequences, used to state what the table sweeps remove. */
module Seqs {

  /** The elements of s that satisfy p, in their order in s. */
  function Filter<T(!new)>(s: seq<T>, p: T -> bool): (r: seq<T>)
    ensures |r| <= |s|
  {
    if s == [] then [] else (if p(s[0]) then [s[0]] else []) + Filter(s[1..], p)
  }

  /** An element is kept exactly when it occurs in s and satisfies p. */
  lemma {:induction false} FilterMembers<T(!new)>(s: seq<T>, p: T -> bool)
    ensures forall x :: x in Filter(s, p) <==> x in s && p(x)
  {
    if s != [] {
      FilterMembers(s[1..], p);
      assert forall x :: x in s <==> x == s[0] || x in s[1..];
    }
  }

  lemma FilterCons<T(!new)>(x: T, t: seq<T>, p: T -> bool)
    ensures Filter([x] + t, p) == (if p(x) then [x] else []) + Filter(t, p)
  {
    assert ([x] + t)[0] == x;
    assert ([x] + t)[1..] == t;
  }

  lemma {:induction false} FilterConcat<T(!new)>(a: seq<T>, b: seq<T>, p: T -> bool)
    ensures Filter(a + b, p) == Filter(a, p) + Filter(b, p)
  {
    if a == [] {
      assert a + b == b;
    } else {
      var h := if p(a[0]) then [a[0]] else [];
      assert (a + b)[0] == a[0];
      assert (a + b)[1..] == a[1..] + b;
      FilterConcat(a[1..], b, p);
      assert Filter(a + b, p) == h + (Filter(a[1..], p) + Filter(b, p));
      assert Filter(a, p) == h + Filter(a[1..], p);
    }
  }

  lemma {:induction false} FilterAll<T(!new)>(s: seq<T>, p: T -> bool)
    requires forall x | x in s :: p(x)
    ensures Filter(s, p) == s
  {
    if s != [] {
      assert s[0] in s;
      assert forall x | x in s[1..] :: x in s;
      FilterAll(s[1..], p);
      assert [s[0]] + s[1..] == s;
    }
  }

  lemma {:induction false} FilterSame<T(!new)>(s: seq<T>, p: T -> bool, q: T -> bool)
    requires forall x | x in s :: p(x) == q(x)
    ensures Filter(s, p) == Filter(s, q)
  {
    if s != [] {
      assert s[0] in s;
      assert forall x | x in s[1..] :: x in s;
      FilterSame(s[1..], p, q);
    }
  }

  lemma {:induction false} FilterFilter<T(!new)>(s: seq<T>, p: T -> bool, q: T -> bool, pq: T -> bool)
    requires forall x | x in s :: pq(x) == (p(x) && q(x))
    ensures Filter(Filter(s, p), q) == Filter(s, pq)
  {
    if s != [] {
      assert s[0] in s;
      assert forall x | x in s[1..] :: x in s;
      FilterFilter(s[1..], p, q, pq);
      var t := Filter(s[1..], p);
      if p(s[0]) {
        assert Filter(s, p) == [s[0]] + t;
        assert ([s[0]] + t)[0] == s[0];
        assert ([s[0]] + t)[1..] == t;
        assert Filter([s[0]] + t, q) == (if q(s[0]) then [s[0]] else []) + Filter(t, q);
      } else {
        assert Filter(s, p) == t;
      }
    }
  }

  /** Dropping an element that p rejects does not change the filtered sequence. */
  lemma {:induction false} FilterDropRejected<T(!new)>(s: seq<T>, k: nat, p: T -> bool)
    requires k < |s| && !p(s[k])
    ensures Filter(s[..k] + s[k + 1..], p) == Filter(s, p)
  {
    var d := s[..k] + s[k + 1..];
    if k == 0 {
      assert d == s[1..];
    } else {
      FilterDropRejected(s[1..], k - 1, p);
      assert d[0] == s[0];
      assert d[1..] == s[1..][..k - 1] + s[1..][k..];
    }
  }

  /** R holds of every pair of elements in the order they appear in s. */
  ghost predicate Pairwise<T>(s: seq<T>, R: (T, T) -> bool)
  {
    forall i, j | 0 <= i < j < |s| :: R(s[i], s[j])
  }

  lemma PairwiseTail<T>(s: seq<T>, R: (T, T) -> bool)
    requires s != [] && Pairwise(s, R)
    ensures Pairwise(s[1..], R)
  {
    var t := s[1..];
    forall i, j | 0 <= i < j < |t|
      ensures R(t[i], t[j])
    {
      assert t[i] == s[i + 1] && t[j] == s[j + 1];
    }
  }

  lemma {:induction false} PairwiseFilter<T(!new)>(s: seq<T>, R: (T, T) -> bool, p: T -> bool)
    requires Pairwise(s, R)
    ensures Pairwise(Filter(s, p), R)
  {
    if s != [] {
      var t := s[1..];
      PairwiseTail(s, R);
      PairwiseFilter(t, R, p);
      FilterMembers(t, p);
      var ft := Filter(t, p);
      if p(s[0]) {
        var r := [s[0]] + ft;
        forall i, j | 0 <= i < j < |r|
          ensures R(r[i], r[j])
        {
          if i == 0 {
            assert r[j] == ft[j - 1];
            assert r[j] in t;
            var m :| 0 <= m < |t| && t[m] == r[j];
            assert s[m + 1] == r[j];
          } else {
            assert r[i] == ft[i - 1] && r[j] == ft[j - 1];
          }
        }
        assert Filter(s, p) == r;
      } else {
        assert Filter(s, p) == ft;
      }
    }
  }

  lemma PairwiseDrop<T>(s: seq<T>, k: nat, R: (T, T) -> bool)
    requires k < |s| && Pairwise(s, R)
    ensures Pairwise(s[..k] + s[k + 1..], R)
  {
    var d := s[..k] + s[k + 1..];
    forall i, j | 0 <= i < j < |d|
      ensures R(d[i], d[j])
    {
      var i' := if i < k then i else i + 1;
      var j' := if j < k then j else j + 1;
      assert d[i] == s[i'] && d[j] == s[j'];
    }
  }

  lemma PairwiseSnoc<T>(s: seq<T>, e: T, R: (T, T) -> bool)
    requires Pairwise(s, R)
    requires forall i | 0 <= i < |s| :: R(s[i], e)
    ensures Pairwise(s + [e], R)
  {
    var d := s + [e];
    forall i, j | 0 <= i < j < |d|
      ensures R(d[i], d[j])
    {
      assert d[i] == s[i];
      if j < |s| {
        assert d[j] == s[j];
      }
    }
  }

  /**
   * Overwriting the |d| elements at offset at of x == o[..base] + b + o[at..], where at is just
   * past b, leaves o[..base] + (b + d) followed by the rest of o.
   */
  lemma Splice<T>(o: seq<T>, base: nat, b: seq<T>, d: seq<T>, at: nat, x: seq<T>)
    requires base + |b| == at && at + |d| <= |o|
    requires x == o[..base] + b + o[at..]
    ensures x[..at] + d + x[at + |d|..] == o[..base] + (b + d) + o[at + |d|..]
  {
    assert x[..at] == o[..base] + b;
    assert x[at + |d|..] == o[at + |d|..];
  }
}
