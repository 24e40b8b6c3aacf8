/** Order-preserving filtering and a functional insertion sort, with the
    facts the table operations need about them. */
module Seqs {

  /** `sub` can be obtained from `s` by deleting elements, keeping order. */
  predicate IsSubsequence<T(!new,==)>(sub: seq<T>, s: seq<T>)
    decreases |s|
  {
    sub == [] ||
    (s != [] &&
     ((sub[0] == s[0] && IsSubsequence(sub[1..], s[1..])) || IsSubsequence(sub, s[1..])))
  }

  /** The elements of `s` that satisfy `p`, in their original order. */
  function Filter<T(!new,==)>(s: seq<T>, p: T -> bool): (r: seq<T>)
    ensures |r| <= |s|
    ensures forall x :: multiset(r)[x] == (if p(x) then multiset(s)[x] else 0)
    ensures IsSubsequence(r, s)
  {
    if s == [] then []
    else
      var rest := Filter(s[1..], p);
      assert s == [s[0]] + s[1..];
      assert multiset(s) == multiset{s[0]} + multiset(s[1..]);
      if p(s[0]) then
        assert ([s[0]] + rest)[1..] == rest;
        [s[0]] + rest
      else
        rest
  }

  /** Filtering a concatenation filters each part: no element changes side. */
  lemma {:induction false} FilterConcat<T(!new)>(a: seq<T>, b: seq<T>, p: T -> bool)
    ensures Filter(a + b, p) == Filter(a, p) + Filter(b, p)
  {
    if a == [] {
      assert a + b == b;
    } else {
      assert (a + b)[1..] == a[1..] + b;
      FilterConcat(a[1..], b, p);
    }
  }

  /** Filtering with a predicate every element satisfies keeps everything. */
  lemma {:induction false} FilterKeepsAll<T(!new)>(s: seq<T>, p: T -> bool)
    requires forall i :: 0 <= i < |s| ==> p(s[i])
    ensures Filter(s, p) == s
  {
    if s != [] {
      FilterKeepsAll(s[1..], p);
    }
  }

  /** `le` is a total preorder: every pair is comparable and it is transitive. */
  ghost predicate TotalPreorder<T(!new)>(le: (T, T) -> bool) {
    && (forall a, b :: le(a, b) || le(b, a))
    && (forall a, b, c :: le(a, b) && le(b, c) ==> le(a, c))
  }

  /** Every earlier element is `le` every later one. */
  predicate Sorted<T>(s: seq<T>, le: (T, T) -> bool) {
    forall i, j :: 0 <= i < j < |s| ==> le(s[i], s[j])
  }

  /** Inserts `x` into a sorted sequence, before the first element it is `le`. */
  function Insert<T(!new,==)>(x: T, s: seq<T>, le: (T, T) -> bool): (r: seq<T>)
    requires TotalPreorder(le)
    requires Sorted(s, le)
    ensures multiset(r) == multiset(s) + multiset{x}
    ensures Sorted(r, le)
  {
    if s == [] then [x]
    else if le(x, s[0]) then [x] + s
    else
      assert s == [s[0]] + s[1..];
      var rest := Insert(x, s[1..], le);
      assert forall y :: y in rest ==> le(s[0], y) by {
        forall y | y in rest
          ensures le(s[0], y)
        {
          assert y in multiset(rest);
          if y != x {
            assert y in multiset(s[1..]);
            var k :| 0 <= k < |s[1..]| && s[1..][k] == y;
            assert s[k + 1] == y;
          }
        }
      }
      [s[0]] + rest
  }

  /** Insertion sort: a permutation of `s` that is sorted under `le`. */
  function Sort<T(!new,==)>(s: seq<T>, le: (T, T) -> bool): (r: seq<T>)
    requires TotalPreorder(le)
    ensures multiset(r) == multiset(s)
    ensures Sorted(r, le)
  {
    if s == [] then []
    else
      assert s == [s[0]] + s[1..];
      Insert(s[0], Sort(s[1..], le), le)
  }

  /** An element occurs at least twice exactly when some other position holds it. */
  lemma {:induction false} RepeatedIffOtherPosition<T>(s: seq<T>, i: nat)
    requires i < |s|
    ensures multiset(s)[s[i]] > 1 <==> exists j :: 0 <= j < |s| && j != i && s[j] == s[i]
  {
    var x := s[i];
    assert s == s[..i] + [x] + s[i + 1..];
    assert multiset(s)[x] == multiset(s[..i])[x] + 1 + multiset(s[i + 1..])[x];
    if multiset(s)[x] > 1 {
      if x in multiset(s[..i]) {
        var j :| 0 <= j < i && s[..i][j] == x;
        assert s[j] == x;
      } else {
        assert x in multiset(s[i + 1..]);
        var k :| 0 <= k < |s[i + 1..]| && s[i + 1..][k] == x;
        assert s[i + 1 + k] == x;
      }
    }
    if exists j :: 0 <= j < |s| && j != i && s[j] == s[i] {
      var j :| 0 <= j < |s| && j != i && s[j] == s[i];
      if j < i {
        assert s[..i][j] == x;
        assert x in multiset(s[..i]);
      } else {
        assert s[i + 1..][j - i - 1] == x;
        assert x in multiset(s[i + 1..]);
      }
    }
  }

  /** `f` applied to every element, in order. */
  function Map<T, U>(s: seq<T>, f: T -> U): (r: seq<U>)
    ensures |r| == |s|
    ensures forall i :: 0 <= i < |s| ==> r[i] == f(s[i])
  {
    seq(|s|, i requires 0 <= i < |s| => f(s[i]))
  }

  /** Mapping a concatenation maps each part. */
  lemma MapConcat<T, U>(a: seq<T>, b: seq<T>, f: T -> U)
    ensures Map(a + b, f) == Map(a, f) + Map(b, f)
  {
  }

  /** Deleting position `j` deletes one occurrence of `b[j]`. */
  lemma RemoveAt<T>(b: seq<T>, j: nat)
    requires j < |b|
    ensures multiset(b) == multiset(b[..j] + b[j + 1..]) + multiset{b[j]}
  {
    assert b == b[..j] + [b[j]] + b[j + 1..];
  }

  lemma MultisetCancel<T>(a: multiset<T>, b: multiset<T>, x: T)
    requires a + multiset{x} == b + multiset{x}
    ensures a == b
  {
    forall y
      ensures a[y] == b[y]
    {
      assert (a + multiset{x})[y] == (b + multiset{x})[y];
    }
  }

  /** Permuting the input permutes the mapped sequence. */
  lemma {:induction false} MapPermutation<T, U>(a: seq<T>, b: seq<T>, f: T -> U)
    requires multiset(a) == multiset(b)
    ensures multiset(Map(a, f)) == multiset(Map(b, f))
    decreases |a|
  {
    if a == [] {
      assert |b| == |multiset(b)| == 0;
    } else {
      var x := a[0];
      assert x in multiset(b);
      var j :| 0 <= j < |b| && b[j] == x;
      var b' := b[..j] + b[j + 1..];
      TailPermutation(a, b, j);
      MapPermutation(a[1..], b', f);
      MapSplit(a, b, j, f);
    }
  }

  /** Two permutations stay permutations once a shared element is taken out. */
  lemma TailPermutation<T>(a: seq<T>, b: seq<T>, j: nat)
    requires multiset(a) == multiset(b) && a != [] && j < |b| && b[j] == a[0]
    ensures multiset(a[1..]) == multiset(b[..j] + b[j + 1..])
  {
    RemoveAt(b, j);
    RemoveAt(a, 0);
    assert a[..0] + a[1..] == a[1..];
    MultisetCancel(multiset(a[1..]), multiset(b[..j] + b[j + 1..]), a[0]);
  }

  lemma MapSplit<T, U>(a: seq<T>, b: seq<T>, j: nat, f: T -> U)
    requires a != [] && j < |b| && b[j] == a[0]
    requires multiset(Map(a[1..], f)) == multiset(Map(b[..j] + b[j + 1..], f))
    ensures multiset(Map(a, f)) == multiset(Map(b, f))
  {
    var x := a[0];
    assert a == [x] + a[1..];
    MapConcat([x], a[1..], f);
    assert b == (b[..j] + [x]) + b[j + 1..];
    MapConcat(b[..j] + [x], b[j + 1..], f);
    MapConcat(b[..j], [x], f);
    MapConcat(b[..j], b[j + 1..], f);
  }
}
