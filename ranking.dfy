/** The ranking step of `main`: `sorted(..., key=repository_size, reverse=True)[:100]`.
    Python's sort is stable, also with `reverse=True`, so projects of equal
    size keep the order in which they were fetched. */
module Ranking {
  import opened Projects

  /** How many projects the report keeps. */
  const TopCount := 100

  predicate NonIncreasing(s: seq<ProjectMetadata>)
  {
    forall i, j :: 0 <= i < j < |s| ==> s[i].repositorySize >= s[j].repositorySize
  }

  /** The records of size `size`, in their order in `s`. */
  function WithSize(s: seq<ProjectMetadata>, size: nat): (r: seq<ProjectMetadata>)
    ensures |r| <= |s|
  {
    if s == [] then []
    else (if s[0].repositorySize == size then [s[0]] else []) + WithSize(s[1..], size)
  }

  /** A record at least as large as every record of a non-increasing run may lead it. */
  lemma {:induction false} ConsNonIncreasing(h: ProjectMetadata, t: seq<ProjectMetadata>)
    requires NonIncreasing(t)
    requires forall i :: 0 <= i < |t| ==> h.repositorySize >= t[i].repositorySize
    ensures NonIncreasing([h] + t)
  {
    forall i, j | 0 <= i < j < |[h] + t|
      ensures ([h] + t)[i].repositorySize >= ([h] + t)[j].repositorySize
    {
      if i > 0 {
        assert ([h] + t)[i] == t[i - 1];
      }
      assert ([h] + t)[j] == t[j - 1];
    }
  }

  /** Every record of `r` is `x` or one of `t`; so `h` is at least as large as all of them. */
  lemma {:induction false} BoundsMerged(h: ProjectMetadata, t: seq<ProjectMetadata>, x: ProjectMetadata, r: seq<ProjectMetadata>)
    requires forall i :: 0 <= i < |t| ==> h.repositorySize >= t[i].repositorySize
    requires h.repositorySize >= x.repositorySize
    requires multiset(r) == multiset(t) + multiset{x}
    ensures forall i :: 0 <= i < |r| ==> h.repositorySize >= r[i].repositorySize
  {
    forall i | 0 <= i < |r|
      ensures h.repositorySize >= r[i].repositorySize
    {
      assert r[i] in multiset(r);
      if r[i] != x {
        assert r[i] in multiset(t);
        var k :| 0 <= k < |t| && t[k] == r[i];
      }
    }
  }

  /** Places `x` before the first record of `t` that is not larger than it. */
  function Insert(x: ProjectMetadata, t: seq<ProjectMetadata>): (r: seq<ProjectMetadata>)
    requires NonIncreasing(t)
    ensures NonIncreasing(r) && multiset(r) == multiset(t) + multiset{x}
  {
    if t == [] || x.repositorySize >= t[0].repositorySize then
      ConsNonIncreasing(x, t);
      [x] + t
    else
      var rest := Insert(x, t[1..]);
      assert t == [t[0]] + t[1..];
      BoundsMerged(t[0], t[1..], x, rest);
      ConsNonIncreasing(t[0], rest);
      [t[0]] + rest
  }

  /** A stable sort of the records by size, largest first. */
  function SortBySizeDescending(s: seq<ProjectMetadata>): (r: seq<ProjectMetadata>)
    ensures NonIncreasing(r) && multiset(r) == multiset(s) && |r| == |s|
  {
    if s == [] then []
    else
      assert s == [s[0]] + s[1..];
      Insert(s[0], SortBySizeDescending(s[1..]))
  }

  lemma {:induction false} WithSizeCons(h: ProjectMetadata, t: seq<ProjectMetadata>, size: nat)
    ensures WithSize([h] + t, size) == (if h.repositorySize == size then [h] else []) + WithSize(t, size)
  {
    assert ([h] + t)[1..] == t;
  }

  lemma {:induction false} InsertKeepsOrderOfEquals(x: ProjectMetadata, t: seq<ProjectMetadata>, size: nat)
    requires NonIncreasing(t)
    ensures WithSize(Insert(x, t), size) == (if x.repositorySize == size then [x] else []) + WithSize(t, size)
  {
    if t == [] || x.repositorySize >= t[0].repositorySize {
      WithSizeCons(x, t, size);
    } else {
      var rest := Insert(x, t[1..]);
      InsertKeepsOrderOfEquals(x, t[1..], size);
      WithSizeCons(t[0], rest, size);
      WithSizeCons(t[0], t[1..], size);
      assert t == [t[0]] + t[1..];
      if x.repositorySize == size {
        assert t[0].repositorySize != size;
        assert [] + WithSize(rest, size) == WithSize(rest, size);
        assert [] + WithSize(t[1..], size) == WithSize(t[1..], size);
      } else {
        assert [] + WithSize(t[1..], size) == WithSize(t[1..], size);
      }
    }
  }

  /** Stability: among records of any one size, the sorted order is the input order. */
  lemma {:induction false} SortIsStable(s: seq<ProjectMetadata>, size: nat)
    ensures WithSize(SortBySizeDescending(s), size) == WithSize(s, size)
  {
    if s != [] {
      SortIsStable(s[1..], size);
      InsertKeepsOrderOfEquals(s[0], SortBySizeDescending(s[1..]), size);
    }
  }

  lemma {:induction false} WithSizePrefix(s: seq<ProjectMetadata>, n: nat, size: nat)
    requires n <= |s|
    ensures WithSize(s[..n], size) <= WithSize(s, size)
  {
    if n > 0 {
      WithSizePrefix(s[1..], n - 1, size);
      assert s[..n][1..] == s[1..][..n - 1];
    }
  }

  /** `sorted(all, key=repository_size, reverse=True)[:100]`. */
  function TopBySize(all: seq<ProjectMetadata>): (top: seq<ProjectMetadata>)
    ensures |top| == if |all| < TopCount then |all| else TopCount
    ensures NonIncreasing(top)
    ensures multiset(top) <= multiset(all)
  {
    var sorted := SortBySizeDescending(all);
    var n := if |all| < TopCount then |all| else TopCount;
    assert sorted == sorted[..n] + sorted[n..];
    assert multiset(sorted) == multiset(sorted[..n]) + multiset(sorted[n..]);
    sorted[..n]
  }

  /** An element counted in `s` but not in its first `n` elements sits after them. */
  lemma {:induction false} InSuffix(s: seq<ProjectMetadata>, n: nat, x: ProjectMetadata)
    requires n <= |s| && x in multiset(s) - multiset(s[..n])
    ensures exists k :: n <= k < |s| && s[k] == x
  {
    assert s == s[..n] + s[n..];
    assert multiset(s) == multiset(s[..n]) + multiset(s[n..]);
    assert x in multiset(s[n..]);
    var k :| 0 <= k < |s[n..]| && s[n..][k] == x;
    assert s[n + k] == x;
  }

  /** No record left out of the top list is larger than any record in it. */
  lemma {:induction false} TopKeepsLargest(all: seq<ProjectMetadata>, x: ProjectMetadata)
    requires x in multiset(all) - multiset(TopBySize(all))
    ensures forall i :: 0 <= i < |TopBySize(all)| ==> TopBySize(all)[i].repositorySize >= x.repositorySize
  {
    var sorted := SortBySizeDescending(all);
    var top := TopBySize(all);
    assert top == sorted[..|top|];
    InSuffix(sorted, |top|, x);
    var k :| |top| <= k < |sorted| && sorted[k] == x;
    forall i | 0 <= i < |top|
      ensures top[i].repositorySize >= x.repositorySize
    {
      assert top[i] == sorted[i];
    }
  }

  /** Records of equal size appear in the top list in fetch order: what the top list
      holds of one size is a prefix of what the input holds of it. */
  lemma TopIsStable(all: seq<ProjectMetadata>, size: nat)
    ensures WithSize(TopBySize(all), size) <= WithSize(all, size)
  {
    var sorted := SortBySizeDescending(all);
    SortIsStable(all, size);
    WithSizePrefix(sorted, |TopBySize(all)|, size);
  }
}
