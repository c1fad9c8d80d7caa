/** The handful of query and aggregate operations the repository relies on,
    stated once over sequences: SQL `.first()`, `filter`, `OFFSET`/`LIMIT`, and
    new row keys, and Python's `max`. Rows are kept in store order. */
module Query {
  import opened Wrappers

  /** Position of the first element satisfying `p`: what `.first()` returns
      after a `filter`. */
  function FirstIndex<T>(s: seq<T>, p: T -> bool): (r: Option<nat>)
    ensures r.None? <==> forall i :: 0 <= i < |s| ==> !p(s[i])
    ensures r.Some? ==> r.value < |s| && p(s[r.value])
    ensures r.Some? ==> forall j :: 0 <= j < r.value ==> !p(s[j])
    decreases |s|
  {
    if |s| == 0 then None
    else if p(s[0]) then Some(0)
    else
      match FirstIndex(s[1..], p)
      case None => None
      case Some(k) => Some(k + 1)
  }

  /** The first element satisfying `p`, or `None`. */
  function First<T>(s: seq<T>, p: T -> bool): (r: Option<T>)
    ensures r.None? <==> forall i :: 0 <= i < |s| ==> !p(s[i])
    ensures r.Some? ==> r.value in s && p(r.value)
    ensures r.Some? ==> exists k :: 0 <= k < |s| && s[k] == r.value && forall j :: 0 <= j < k ==> !p(s[j])
  {
    match FirstIndex(s, p)
    case None => None
    case Some(k) => Some(s[k])
  }

  /** The elements satisfying `p`, in their original order. */
  function Where<T>(s: seq<T>, p: T -> bool): (r: seq<T>)
    ensures |r| <= |s|
    ensures forall x :: x in r ==> p(x)
    ensures forall i :: 0 <= i < |s| && p(s[i]) ==> s[i] in r
    ensures multiset(r) <= multiset(s)
    decreases |s|
  {
    if |s| == 0 then []
    else
      var init := s[..|s| - 1];
      assert s == init + [s[|s| - 1]];
      Where(init, p) + (if p(s[|s| - 1]) then [s[|s| - 1]] else [])
  }

  /** Filtering distributes over concatenation. */
  lemma {:induction false} WhereAppend<T>(a: seq<T>, b: seq<T>, p: T -> bool)
    ensures Where(a + b, p) == Where(a, p) + Where(b, p)
    decreases |b|
  {
    if |b| == 0 {
      assert a + b == a;
    } else {
      var b' := b[..|b| - 1];
      assert (a + b)[..|a + b| - 1] == a + b';
      assert (a + b)[|a + b| - 1] == b[|b| - 1];
      WhereAppend(a, b', p);
    }
  }

  /** Replacing one element by another, where neither satisfies `p`, leaves
      the filtered sequence unchanged. */
  lemma {:induction false} WhereIgnoresUpdate<T>(s: seq<T>, k: nat, x: T, p: T -> bool)
    requires k < |s|
    requires !p(s[k]) && !p(x)
    ensures Where(s[k := x], p) == Where(s, p)
  {
    var t := s[k := x];
    assert s == s[..k] + [s[k]] + s[k + 1..];
    assert t == s[..k] + [x] + s[k + 1..];
    WhereAppend(s[..k] + [s[k]], s[k + 1..], p);
    WhereAppend(s[..k], [s[k]], p);
    WhereAppend(s[..k] + [x], s[k + 1..], p);
    WhereAppend(s[..k], [x], p);
    assert Where([s[k]], p) == [] by {
      assert [s[k]][..0] == [];
    }
    assert Where([x], p) == [] by {
      assert [x][..0] == [];
    }
  }

  /** Where SQLite starts reading for `OFFSET skip`: a negative offset counts
      as zero, an offset past the end yields nothing. */
  function Offset(skip: int, n: nat): (lo: nat)
    ensures lo <= n
    ensures skip <= 0 ==> lo == 0
    ensures 0 <= skip <= n ==> lo == skip
    ensures skip >= n ==> lo == n
  {
    if skip <= 0 then 0 else if skip < n then skip else n
  }

  /** `r` is the run of `s` that starts at position `lo`. */
  ghost predicate IsSliceAt<T>(r: seq<T>, s: seq<T>, lo: nat)
  {
    lo + |r| <= |s| && r == s[lo..lo + |r|]
  }

  /** `OFFSET skip LIMIT limit` as SQLite evaluates it: a negative limit means
      no limit. */
  function Page<T>(s: seq<T>, skip: int, limit: int): (r: seq<T>)
    ensures IsSliceAt(r, s, Offset(skip, |s|))
    ensures limit >= 0 ==> |r| <= limit
    ensures limit < 0 || |r| < limit ==> Offset(skip, |s|) + |r| == |s|
  {
    var lo := Offset(skip, |s|);
    var hi := if limit < 0 || |s| - lo <= limit then |s| else lo + limit;
    s[lo..hi]
  }

  /** Two consecutive pages together are the page that spans both. */
  lemma PageConcat<T>(s: seq<T>, skip: nat, a: nat, b: nat)
    ensures Page(s, skip, a) + Page(s, skip + a, b) == Page(s, skip, a + b)
  {
    var lo := Offset(skip, |s|);
    var mid := Offset(skip + a, |s|);
    var hi := Offset(skip + a + b, |s|);
    assert Page(s, skip, a) == s[lo..mid];
    assert Page(s, skip + a, b) == s[mid..hi];
    assert Page(s, skip, a + b) == s[lo..hi];
    assert s[lo..mid] + s[mid..hi] == s[lo..hi];
  }

  /** Growing the scanned rows by one: the page either takes the new row or
      stays as it was. */
  lemma PageSnoc<T>(s: seq<T>, x: T, skip: int, limit: int)
    ensures |s| < Offset(skip, |s| + 1) ==> Page(s + [x], skip, limit) == Page(s, skip, limit)
    ensures limit >= 0 && |Page(s, skip, limit)| >= limit ==> Page(s + [x], skip, limit) == Page(s, skip, limit)
    ensures Offset(skip, |s| + 1) <= |s| && (limit < 0 || |Page(s, skip, limit)| < limit)
      ==> Page(s + [x], skip, limit) == Page(s, skip, limit) + [x]
  {
    var t := s + [x];
    var lo := Offset(skip, |s|);
    var lo' := Offset(skip, |t|);
    if lo' <= |s| {
      assert lo' == lo;
      var hi := lo + |Page(s, skip, limit)|;
      assert t[lo..hi] == s[lo..hi];
      if limit < 0 || |Page(s, skip, limit)| < limit {
        assert hi == |s|;
        assert t[lo..|t|] == s[lo..|s|] + [x];
      }
    }
  }

  /** Once a page is full, later rows cannot change it. */
  lemma PageOfFullPrefix<T>(s: seq<T>, u: seq<T>, skip: int, limit: int)
    requires limit >= 0 && |Page(s, skip, limit)| == limit
    ensures Page(s + u, skip, limit) == Page(s, skip, limit)
  {
    if limit > 0 {
      var lo := Offset(skip, |s|);
      assert lo + limit <= |s|;
      assert Offset(skip, |s + u|) == lo;
      assert (s + u)[lo..lo + limit] == s[lo..lo + limit];
    }
  }

  /** The key SQLite gives a new row: one more than the largest key in the
      table, or 1 for an empty table. */
  function NextId<T>(rows: seq<T>, key: T -> int): (r: int)
    ensures forall i :: 0 <= i < |rows| ==> key(rows[i]) < r
    ensures |rows| == 0 ==> r == 1
    ensures |rows| > 0 ==> exists i :: 0 <= i < |rows| && key(rows[i]) == r - 1
  {
    if |rows| == 0 then 1
    else
      var rest := NextId(rows[1..], key);
      assert forall i :: 1 <= i < |rows| ==> rows[i] == rows[1..][i - 1];
      if |rows| == 1 || key(rows[0]) >= rest then key(rows[0]) + 1 else rest
  }

  /** Python's `max` over a non-empty list: an element that no other exceeds. */
  function Max(xs: seq<int>): (m: int)
    requires |xs| > 0
    ensures m in xs
    ensures forall i :: 0 <= i < |xs| ==> xs[i] <= m
  {
    if |xs| == 1 then xs[0]
    else
      var rest := Max(xs[1..]);
      assert forall i :: 1 <= i < |xs| ==> xs[i] == xs[1..][i - 1];
      if xs[0] >= rest then xs[0] else rest
  }
}
