/** Facts about sequences of pairwise-distinct values: the insertion-ordered
    hash set behind the queue is modelled as such a sequence. */
module Sequences {

  /** No value occurs twice. */
  predicate Distinct<T(==)>(s: seq<T>) {
    forall i, j :: 0 <= i < j < |s| ==> s[i] != s[j]
  }

  /** Position of the first occurrence of x in s. */
  function IndexOf<T(==)>(s: seq<T>, x: T): (i: nat)
    requires x in s
    ensures i < |s| && s[i] == x
    ensures forall j :: 0 <= j < i ==> s[j] != x
  {
    if s[0] == x then 0 else 1 + IndexOf(s[1..], x)
  }

  /** Appending to a sequence does not move the first occurrence of a value already in it. */
  lemma IndexOfAppend<T>(s: seq<T>, t: seq<T>, x: T)
    requires x in s
    ensures IndexOf(s + t, x) == IndexOf(s, x)
  {
    var i, k := IndexOf(s, x), IndexOf(s + t, x);
    assert (s + t)[i] == x;
    assert k < |s| ==> s[k] == (s + t)[k];
  }

  /** A value appended to a sequence that lacks it first occurs at the old length. */
  lemma IndexOfAppendNew<T>(s: seq<T>, x: T)
    requires x !in s
    ensures IndexOf(s + [x], x) == |s|
  {
  }

  /** Removing one element keeps the rest distinct. */
  lemma DistinctTail<T>(s: seq<T>)
    requires Distinct(s) && |s| > 0
    ensures Distinct(s[1..]) && s[0] !in s[1..]
  {
    forall i, j | 0 <= i < j < |s| - 1
      ensures s[1..][i] != s[1..][j]
    {
      assert s[1..][i] == s[i + 1] && s[1..][j] == s[j + 1];
    }
    forall k | 0 <= k < |s| - 1
      ensures s[1..][k] != s[0]
    {
      assert s[1..][k] == s[k + 1];
    }
  }

  /** Adding a fresh value at the end keeps a sequence distinct. */
  lemma DistinctAppend<T>(s: seq<T>, x: T)
    requires Distinct(s) && x !in s
    ensures Distinct(s + [x])
  {
    forall i, j | 0 <= i < j < |s| + 1
      ensures (s + [x])[i] != (s + [x])[j]
    {
      if j == |s| {
        assert (s + [x])[i] == s[i];
      } else {
        assert (s + [x])[i] == s[i] && (s + [x])[j] == s[j];
      }
    }
  }

  /** s with the first occurrence of x taken out: `LinkedHashSet.remove`. */
  function Without<T(==)>(s: seq<T>, x: T): (r: seq<T>)
    ensures x !in s ==> r == s
    ensures x in s ==> r == s[..IndexOf(s, x)] + s[IndexOf(s, x) + 1..]
    ensures forall y :: y in r ==> y in s
  {
    if |s| == 0 then []
    else if s[0] == x then
      assert s == [s[0]] + s[1..];
      s[1..]
    else
      var w := Without(s[1..], x);
      assert s == [s[0]] + s[1..];
      [s[0]] + w
  }

  /** Removing a value from a distinct sequence leaves it distinct and without that value. */
  lemma {:induction false} WithoutDistinct<T>(s: seq<T>, x: T)
    requires Distinct(s)
    ensures Distinct(Without(s, x)) && x !in Without(s, x)
  {
    if |s| > 0 {
      DistinctTail(s);
      if s[0] != x {
        WithoutDistinct(s[1..], x);
        var w := Without(s[1..], x);
        DistinctPrepend(s[0], w);
      }
    }
  }

  /** Adding a fresh value at the front keeps a sequence distinct. */
  lemma DistinctPrepend<T>(x: T, s: seq<T>)
    requires Distinct(s) && x !in s
    ensures Distinct([x] + s)
  {
    forall i, j | 0 <= i < j < |s| + 1
      ensures ([x] + s)[i] != ([x] + s)[j]
    {
      assert ([x] + s)[j] == s[j - 1];
      if i > 0 {
        assert ([x] + s)[i] == s[i - 1];
      }
    }
  }

  /** A prefix of a distinct sequence is distinct. */
  lemma DistinctInit<T>(s: seq<T>, n: nat)
    requires Distinct(s) && n <= |s|
    ensures Distinct(s[..n])
  {
    forall i, j | 0 <= i < j < n
      ensures s[..n][i] != s[..n][j]
    {
      assert s[..n][i] == s[i] && s[..n][j] == s[j];
    }
  }

  /** The first occurrence of each value of s, in the order of those occurrences. */
  function Dedup<T(==)>(s: seq<T>): (d: seq<T>)
    ensures |d| <= |s|
    decreases |s|
  {
    if s == [] then []
    else
      var d := Dedup(s[..|s| - 1]);
      if s[|s| - 1] in d then d else d + [s[|s| - 1]]
  }

  /** Dropping repeats keeps exactly the values of s. */
  lemma {:induction false} DedupMembers<T>(s: seq<T>)
    ensures forall y :: y in Dedup(s) <==> y in s
    decreases |s|
  {
    if s != [] {
      var s0 := s[..|s| - 1];
      assert s == s0 + [s[|s| - 1]];
      DedupMembers(s0);
    }
  }

  /** Dropping repeats leaves no repeats. */
  lemma {:induction false} DedupDistinct<T>(s: seq<T>)
    ensures Distinct(Dedup(s))
    decreases |s|
  {
    if s != [] {
      var s0, x := s[..|s| - 1], s[|s| - 1];
      DedupDistinct(s0);
      if x !in Dedup(s0) {
        DistinctAppend(Dedup(s0), x);
      }
    }
  }

  /** A sequence without repeats is its own deduplication. */
  lemma {:induction false} DedupOfDistinct<T>(s: seq<T>)
    requires Distinct(s)
    ensures Dedup(s) == s
    decreases |s|
  {
    if s != [] {
      var s0, x := s[..|s| - 1], s[|s| - 1];
      assert s == s0 + [x];
      DistinctInit(s, |s| - 1);
      DedupOfDistinct(s0);
      assert x !in s0 by {
        assert forall k :: 0 <= k < |s0| ==> s0[k] == s[k];
      }
    }
  }

  /** Extending a sequence extends its deduplication. */
  lemma {:induction false} DedupPrefix<T>(s: seq<T>, t: seq<T>)
    ensures Dedup(s) <= Dedup(s + t)
    decreases |t|
  {
    if t == [] {
      assert s + t == s;
    } else {
      var t0 := t[..|t| - 1];
      assert s + t == (s + t0) + [t[|t| - 1]];
      DedupPrefix(s, t0);
    }
  }

  /** Deduplication orders values by their first occurrence. */
  lemma {:induction false} DedupOrder<T>(s: seq<T>)
    ensures forall y :: y in Dedup(s) ==> y in s
    ensures forall i, j :: 0 <= i < j < |Dedup(s)| ==>
      IndexOf(s, Dedup(s)[i]) < IndexOf(s, Dedup(s)[j])
    decreases |s|
  {
    DedupMembers(s);
    if s != [] {
      var s0, x := s[..|s| - 1], s[|s| - 1];
      assert s == s0 + [x];
      var d0, d := Dedup(s0), Dedup(s);
      DedupOrder(s0);
      DedupMembers(s0);
      forall y | y in s0
        ensures IndexOf(s, y) == IndexOf(s0, y)
      {
        IndexOfAppend(s0, [x], y);
      }
      if x !in d0 {
        assert d == d0 + [x];
        IndexOfAppendNew(s0, x);
        forall i, j | 0 <= i < j < |d|
          ensures IndexOf(s, d[i]) < IndexOf(s, d[j])
        {
          assert d[i] == d0[i];
          if j < |d0| {
            assert d[j] == d0[j];
          } else {
            assert d[j] == x;
          }
        }
      }
    }
  }
}
