/** The array primitives the data layer is written with (`findIndex`, `find`,
    `indexOf`, `filter`, `splice`), as functions on sequences whose contracts
    say what the JavaScript operations promise. */
module Seqs {
  import opened Wrappers

  /** Index of the first element satisfying `p`, or -1 (`Array.prototype.findIndex`). */
  function FindIndex<T>(s: seq<T>, p: T -> bool): (i: int)
    ensures -1 <= i < |s|
    ensures i == -1 <==> forall j :: 0 <= j < |s| ==> !p(s[j])
    ensures 0 <= i ==> p(s[i]) && forall j :: 0 <= j < i ==> !p(s[j])
  {
    if |s| == 0 then -1
    else if p(s[0]) then 0
    else
      var k := FindIndex(s[1..], p);
      if k == -1 then -1 else k + 1
  }

  /** First element satisfying `p` (`Array.prototype.find`). */
  function Find<T>(s: seq<T>, p: T -> bool): (r: Option<T>)
    ensures r.None? <==> forall j :: 0 <= j < |s| ==> !p(s[j])
    ensures r.Some? ==> r.value in s && p(r.value)
    ensures r.Some? ==> r.value == s[FindIndex(s, p)]
  {
    var i := FindIndex(s, p);
    if i == -1 then None else Some(s[i])
  }

  /** Index of the first occurrence of `x`, or -1 (`Array.prototype.indexOf`). */
  function IndexOf<T(==)>(s: seq<T>, x: T): (i: int)
    ensures -1 <= i < |s|
    ensures i == -1 <==> x !in s
    ensures 0 <= i ==> s[i] == x && x !in s[..i]
  {
    if |s| == 0 then -1
    else if s[0] == x then 0
    else
      var k := IndexOf(s[1..], x);
      if k == -1 then -1 else k + 1
  }

  /** The elements satisfying `p`, in their original order (`Array.prototype.filter`). */
  function Filter<T(==,!new)>(s: seq<T>, p: T -> bool): (r: seq<T>)
    ensures |r| <= |s|
    ensures forall x :: x in r <==> x in s && p(x)
    ensures (forall j :: 0 <= j < |s| ==> p(s[j])) ==> r == s
    ensures (forall j :: 0 <= j < |s| ==> !p(s[j])) ==> r == []
  {
    if |s| == 0 then []
    else
      assert s == [s[0]] + s[1..];
      var rest := Filter(s[1..], p);
      if p(s[0]) then [s[0]] + rest else rest
  }

  /** Filtering keeps every surviving value as often as it occurs, and
      drops every other value entirely. */
  lemma {:induction false} FilterCount<T(!new)>(s: seq<T>, p: T -> bool, x: T)
    ensures multiset(Filter(s, p))[x] == if p(x) then multiset(s)[x] else 0
  {
    if |s| > 0 {
      assert s == [s[0]] + s[1..];
      FilterCount(s[1..], p, x);
    }
  }

  /** `s` with the element at `i` cut out (`splice(i, 1)`). */
  function RemoveAt<T>(s: seq<T>, i: nat): (r: seq<T>)
    requires i < |s|
    ensures |r| == |s| - 1
    ensures multiset(r) == multiset(s) - multiset{s[i]}
    ensures forall j :: 0 <= j < i ==> r[j] == s[j]
    ensures forall j :: i <= j < |r| ==> r[j] == s[j + 1]
  {
    assert s == s[..i] + [s[i]] + s[i+1..];
    s[..i] + s[i+1..]
  }

  /** No value occurs twice. */
  predicate NoDup<T(==)>(s: seq<T>) {
    forall i, j :: 0 <= i < j < |s| ==> s[i] != s[j]
  }

  /** Cutting one element out keeps every other value's membership, and of
      a duplicate-free sequence leaves a duplicate-free one without it. */
  lemma RemoveAtMembership<T>(s: seq<T>, i: nat)
    requires i < |s|
    ensures forall x :: x != s[i] ==> (x in RemoveAt(s, i) <==> x in s)
    ensures NoDup(s) ==> NoDup(RemoveAt(s, i)) && s[i] !in RemoveAt(s, i)
  {
    var r := RemoveAt(s, i);
    forall x | x != s[i]
      ensures x in r <==> x in s
    {
      assert x in r <==> multiset(r)[x] > 0;
      assert x in s <==> multiset(s)[x] > 0;
    }
    if NoDup(s) {
      forall a, b | 0 <= a < b < |r|
        ensures r[a] != r[b]
      {
        var a' := if a < i then a else a + 1;
        var b' := if b < i then b else b + 1;
        assert r[a] == s[a'] && r[b] == s[b'];
      }
      forall a | 0 <= a < |r|
        ensures r[a] != s[i]
      {
        var a' := if a < i then a else a + 1;
        assert r[a] == s[a'];
      }
    }
  }

  /** At most one element satisfies `p`; such a sequence keeps at most one
      element under `Filter`. */
  lemma {:induction false} FilterAtMostOne<T(!new)>(s: seq<T>, p: T -> bool)
    requires forall i, j :: 0 <= i < j < |s| && p(s[i]) ==> !p(s[j])
    ensures |Filter(s, p)| <= 1
  {
    if |s| > 0 {
      FilterAtMostOne(s[1..], p);
      if p(s[0]) {
        assert forall j :: 0 <= j < |s[1..]| ==> !p(s[1..][j]) by {
          forall j | 0 <= j < |s[1..]|
            ensures !p(s[1..][j])
          {
            assert s[1..][j] == s[j + 1];
          }
        }
      }
    }
  }

  /** Filtering distributes over concatenation, so the survivors of each
      part keep their order and stay ahead of those of the later part. */
  lemma {:induction false} FilterConcat<T(!new)>(s: seq<T>, t: seq<T>, p: T -> bool)
    ensures Filter(s + t, p) == Filter(s, p) + Filter(t, p)
  {
    if |s| == 0 {
      assert s + t == t;
    } else {
      assert (s + t)[0] == s[0];
      assert (s + t)[1..] == s[1..] + t;
      FilterConcat(s[1..], t, p);
    }
  }

  /** Filtering distributes over appending one element. */
  lemma FilterAppend<T(!new)>(s: seq<T>, y: T, p: T -> bool)
    ensures Filter(s + [y], p) == Filter(s, p) + (if p(y) then [y] else [])
  {
    FilterConcat(s, [y], p);
    assert [y][1..] == [];
  }

  /** `rel` holds from every element to every later one. */
  ghost predicate Pairwise<T>(s: seq<T>, rel: (T, T) -> bool) {
    forall i, j :: 0 <= i < j < |s| ==> rel(s[i], s[j])
  }

  lemma PairwiseCons<T>(x: T, t: seq<T>, rel: (T, T) -> bool)
    requires Pairwise(t, rel)
    requires forall j :: 0 <= j < |t| ==> rel(x, t[j])
    ensures Pairwise([x] + t, rel)
  {
    var r := [x] + t;
    forall i, j | 0 <= i < j < |r|
      ensures rel(r[i], r[j])
    {
      assert r[j] == t[j - 1];
      if i > 0 {
        assert r[i] == t[i - 1];
      }
    }
  }

  lemma PairwiseTail<T>(s: seq<T>, rel: (T, T) -> bool)
    requires Pairwise(s, rel) && |s| > 0
    ensures Pairwise(s[1..], rel)
    ensures forall x :: x in s[1..] ==> rel(s[0], x)
  {
    forall i, j | 0 <= i < j < |s[1..]|
      ensures rel(s[1..][i], s[1..][j])
    {
      assert s[1..][i] == s[i + 1] && s[1..][j] == s[j + 1];
    }
    forall x | x in s[1..]
      ensures rel(s[0], x)
    {
      var k :| 0 <= k < |s[1..]| && s[1..][k] == x;
      assert s[k + 1] == x;
    }
  }

  /** A relation that holds between every earlier and later element still
      holds after filtering, since filtering keeps the order. */
  lemma {:induction false} FilterKeepsPairwise<T(!new)>(s: seq<T>, p: T -> bool, rel: (T, T) -> bool)
    requires Pairwise(s, rel)
    ensures Pairwise(Filter(s, p), rel)
  {
    if |s| > 0 {
      PairwiseTail(s, rel);
      FilterKeepsPairwise(s[1..], p, rel);
      var rest := Filter(s[1..], p);
      if p(s[0]) {
        assert forall j :: 0 <= j < |rest| ==> rest[j] in s[1..];
        PairwiseCons(s[0], rest, rel);
      }
    }
  }
}
