/** The recursive merge sort of clientlog/processes.c over an array of row pointers, for any comparison
    function that, like the ones there, says which of two rows goes above the other and never "equal". */
module MergeSort {

  /** The comparison puts a above b: the left row is taken on a result of zero or more. */
  predicate Above<T(!new)>(cmp: (T, T) -> int, a: T, b: T) {
    cmp(a, b) >= 0
  }

  /** "Above" is a strict order in which being unordered is transitive. */
  ghost predicate IsRanking<T(!new)>(cmp: (T, T) -> int) {
    && (forall a :: !Above(cmp, a, a))
    && (forall a, b, c | Above(cmp, a, b) && Above(cmp, b, c) :: Above(cmp, a, c))
    && (forall a, b, c | !Above(cmp, a, b) && !Above(cmp, b, c) :: !Above(cmp, a, c))
  }

  ghost predicate Sorted<T(!new)>(cmp: (T, T) -> int, s: seq<T>) {
    forall i, j | 0 <= i < j < |s| :: !Above(cmp, s[j], s[i])
  }

  /** Any two different elements are ordered one way or the other. */
  ghost predicate ToldApart<T(!new)>(cmp: (T, T) -> int, s: seq<T>) {
    forall a, b | a in s && b in s && a != b :: Above(cmp, a, b) || Above(cmp, b, a)
  }

  // ---------- on values

  /** Ties take the right half: a row that is not strictly above the other is passed over. */
  function Merge<T(!new)>(cmp: (T, T) -> int, l: seq<T>, r: seq<T>): (m: seq<T>)
    ensures |m| == |l| + |r|
    decreases |l| + |r|
  {
    if l == [] then r
    else if r == [] then l
    else if Above(cmp, l[0], r[0]) then [l[0]] + Merge(cmp, l[1..], r)
    else [r[0]] + Merge(cmp, l, r[1..])
  }

  function Sort<T(!new)>(cmp: (T, T) -> int, s: seq<T>): (t: seq<T>)
    ensures |t| == |s|
    decreases |s|
  {
    if |s| <= 1 then s else Merge(cmp, Sort(cmp, s[..|s| / 2]), Sort(cmp, s[|s| / 2..]))
  }

  lemma {:induction false} MergePermutes<T(!new)>(cmp: (T, T) -> int, l: seq<T>, r: seq<T>)
    ensures multiset(Merge(cmp, l, r)) == multiset(l) + multiset(r)
    decreases |l| + |r|
  {
    if l != [] && r != [] {
      if Above(cmp, l[0], r[0]) {
        assert l == [l[0]] + l[1..];
        MergePermutes(cmp, l[1..], r);
      } else {
        assert r == [r[0]] + r[1..];
        MergePermutes(cmp, l, r[1..]);
      }
    }
  }

  lemma {:induction false} SortPermutes<T(!new)>(cmp: (T, T) -> int, s: seq<T>)
    ensures multiset(Sort(cmp, s)) == multiset(s)
    decreases |s|
  {
    if |s| > 1 {
      var l, r := s[..|s| / 2], s[|s| / 2..];
      assert multiset(s) == multiset(l) + multiset(r) by { assert s == l + r; }
      SortPermutes(cmp, l);
      SortPermutes(cmp, r);
      MergePermutes(cmp, Sort(cmp, l), Sort(cmp, r));
    }
  }

  /** Nothing in s is above x. */
  ghost predicate Heads<T(!new)>(cmp: (T, T) -> int, x: T, s: multiset<T>) {
    forall y | y in s :: !Above(cmp, y, x)
  }

  lemma SortedCons<T(!new)>(cmp: (T, T) -> int, x: T, s: seq<T>)
    requires Heads(cmp, x, multiset(s)) && Sorted(cmp, s)
    ensures Sorted(cmp, [x] + s)
  {
    assert forall j | 0 <= j < |s| :: s[j] in multiset(s);
  }

  lemma SortedUncons<T(!new)>(cmp: (T, T) -> int, s: seq<T>)
    requires IsRanking(cmp) && Sorted(cmp, s) && s != []
    ensures Sorted(cmp, s[1..]) && Heads(cmp, s[0], multiset(s))
  {
    forall y | y in multiset(s) ensures !Above(cmp, y, s[0]) {
      assert y in s;
    }
  }

  lemma {:induction false} MergeSorts<T(!new)>(cmp: (T, T) -> int, l: seq<T>, r: seq<T>)
    requires IsRanking(cmp) && Sorted(cmp, l) && Sorted(cmp, r)
    ensures Sorted(cmp, Merge(cmp, l, r))
    decreases |l| + |r|
  {
    if l != [] && r != [] {
      SortedUncons(cmp, l);
      SortedUncons(cmp, r);
      var l', r' := l, r;
      if Above(cmp, l[0], r[0]) {
        l' := l[1..];
        assert l == [l[0]] + l';
        assert Heads(cmp, l[0], multiset(l') + multiset(r));
      } else {
        r' := r[1..];
        assert r == [r[0]] + r';
        assert Heads(cmp, r[0], multiset(l) + multiset(r'));
      }
      MergePermutes(cmp, l', r');
      MergeSorts(cmp, l', r');
      SortedCons(cmp, if Above(cmp, l[0], r[0]) then l[0] else r[0], Merge(cmp, l', r'));
    }
  }

  lemma {:induction false} SortSorts<T(!new)>(cmp: (T, T) -> int, s: seq<T>)
    requires IsRanking(cmp)
    ensures Sorted(cmp, Sort(cmp, s))
    decreases |s|
  {
    if |s| > 1 {
      var m := |s| / 2;
      SortSorts(cmp, s[..m]);
      SortSorts(cmp, s[m..]);
      MergeSorts(cmp, Sort(cmp, s[..m]), Sort(cmp, s[m..]));
    }
  }

  // ---------- one canonical order

  lemma SameHead<T(!new)>(cmp: (T, T) -> int, s: seq<T>, t: seq<T>)
    requires s != [] && t != [] && multiset(s) == multiset(t) && ToldApart(cmp, s)
    requires Heads(cmp, s[0], multiset(s)) && Heads(cmp, t[0], multiset(t))
    ensures s[0] == t[0]
  {
    assert t[0] in multiset(t) && s[0] in multiset(s);
    assert t[0] in s;
    var j :| 0 <= j < |s| && s[j] == t[0];
  }

  lemma SameTails<T(!new)>(s: seq<T>, t: seq<T>)
    requires s != [] && t != [] && s[0] == t[0] && multiset(s) == multiset(t)
    ensures multiset(s[1..]) == multiset(t[1..])
  {
    assert s == [s[0]] + s[1..] && t == [t[0]] + t[1..];
    assert multiset(s[1..]) == multiset(s) - multiset{s[0]};
  }

  /** Elements that can all be told apart have only one sorted order. */
  lemma {:induction false} SortedUnique<T(!new)>(cmp: (T, T) -> int, s: seq<T>, t: seq<T>)
    requires IsRanking(cmp) && multiset(s) == multiset(t)
    requires Sorted(cmp, s) && Sorted(cmp, t) && ToldApart(cmp, s)
    ensures s == t
    decreases |s|
  {
    assert |s| == |multiset(s)| == |multiset(t)| == |t|;
    if s != [] {
      SortedUncons(cmp, s);
      SortedUncons(cmp, t);
      SameHead(cmp, s, t);
      SameTails(s, t);
      SortedUnique(cmp, s[1..], t[1..]);
    }
  }

  lemma ToldApartPermute<T(!new)>(cmp: (T, T) -> int, s: seq<T>, t: seq<T>)
    requires multiset(s) == multiset(t) && ToldApart(cmp, s)
    ensures ToldApart(cmp, t)
  {
    forall x | x in t ensures x in s {
      assert x in multiset(t);
    }
  }

  /** Whatever order the elements were in before, sorting gives the same sequence. */
  lemma SortCanonical<T(!new)>(cmp: (T, T) -> int, s: seq<T>, t: seq<T>)
    requires IsRanking(cmp) && multiset(s) == multiset(t) && ToldApart(cmp, s)
    ensures Sort(cmp, s) == Sort(cmp, t)
  {
    SortPermutes(cmp, s);
    SortPermutes(cmp, t);
    SortSorts(cmp, s);
    SortSorts(cmp, t);
    ToldApartPermute(cmp, s, Sort(cmp, s));
    SortedUnique(cmp, Sort(cmp, s), Sort(cmp, t));
  }

  // ---------- in place

  /** What is still to be written once i elements of l and j of r have been: the merge as the loop sees
      it, without cutting l and r up. */
  function MergeFrom<T(!new)>(cmp: (T, T) -> int, l: seq<T>, r: seq<T>, i: nat, j: nat): (m: seq<T>)
    requires i <= |l| && j <= |r|
    ensures |m| == |l| - i + |r| - j
    decreases |l| - i + |r| - j
  {
    if i < |l| && (j == |r| || Above(cmp, l[i], r[j])) then [l[i]] + MergeFrom(cmp, l, r, i + 1, j)
    else if j < |r| then [r[j]] + MergeFrom(cmp, l, r, i, j + 1)
    else []
  }

  lemma {:induction false} MergeFromIsMerge<T(!new)>(cmp: (T, T) -> int, l: seq<T>, r: seq<T>, i: nat, j: nat)
    requires i <= |l| && j <= |r|
    ensures MergeFrom(cmp, l, r, i, j) == Merge(cmp, l[i..], r[j..])
    decreases |l| - i + |r| - j
  {
    if i < |l| && (j == |r| || Above(cmp, l[i], r[j])) {
      assert l[i..] == [l[i]] + l[i + 1..];
      MergeFromIsMerge(cmp, l, r, i + 1, j);
    } else if j < |r| {
      assert r[j..] == [r[j]] + r[j + 1..];
      MergeFromIsMerge(cmp, l, r, i, j + 1);
    }
  }

  /** The scratch array after i elements of l and j of r have been written to it. */
  ghost predicate Filled<T(!new)>(s: seq<T>, whole: seq<T>, cmp: (T, T) -> int, l: seq<T>, r: seq<T>, i: nat, j: nat) {
    && |s| == |l| + |r| && i <= |l| && j <= |r|
    && s[..i + j] + MergeFrom(cmp, l, r, i, j) == whole
  }

  lemma FillLeft<T(!new)>(s: seq<T>, whole: seq<T>, cmp: (T, T) -> int, l: seq<T>, r: seq<T>, i: nat, j: nat)
    requires Filled(s, whole, cmp, l, r, i, j) && i < |l| && (j == |r| || Above(cmp, l[i], r[j]))
    ensures Filled(s[i + j := l[i]], whole, cmp, l, r, i + 1, j)
  {
    assert s[i + j := l[i]][..i + 1 + j] == s[..i + j] + [l[i]];
  }

  lemma FillRight<T(!new)>(s: seq<T>, whole: seq<T>, cmp: (T, T) -> int, l: seq<T>, r: seq<T>, i: nat, j: nat)
    requires Filled(s, whole, cmp, l, r, i, j) && j < |r| && (i == |l| || !Above(cmp, l[i], r[j]))
    ensures Filled(s[i + j := r[j]], whole, cmp, l, r, i, j + 1)
  {
    assert s[i + j := r[j]][..i + (j + 1)] == s[..i + j] + [r[j]];
  }

  lemma FilledIsMerge<T(!new)>(s: seq<T>, whole: seq<T>, cmp: (T, T) -> int, l: seq<T>, r: seq<T>)
    requires whole == MergeFrom(cmp, l, r, 0, 0) && Filled(s, whole, cmp, l, r, |l|, |r|)
    ensures s == Merge(cmp, l, r)
  {
    MergeFromIsMerge(cmp, l, r, 0, 0);
    assert l[0..] == l && r[0..] == r && s[..|l| + |r|] == s;
  }

  /** Merges p[start..mid] and p[mid..end] into a fresh array. */
  method MergeHalves<T(!new)>(p: array<T>, cmp: (T, T) -> int, start: nat, mid: nat, end: nat)
    returns (res: array<T>, ghost whole: seq<T>)
    requires start <= mid <= end <= p.Length && start < end
    ensures fresh(res) && whole == MergeFrom(cmp, p[start..mid], p[mid..end], 0, 0)
    ensures Filled(res[..], whole, cmp, p[start..mid], p[mid..end], mid - start, end - mid)
  {
    ghost var l, r := p[start..mid], p[mid..end];
    whole := MergeFrom(cmp, l, r, 0, 0);
    var first := p[start];
    res := new T[end - start](_ => first);
    var i, j := MergeBoth(p, cmp, start, mid, end, res, whole, l, r);
    i := CopyLeft(p, cmp, start, mid, res, i, j, whole, l, r);
    CopyRight(p, cmp, mid, end, res, i, j, whole, l, r);
  }

  method MergeBoth<T(!new)>(p: array<T>, cmp: (T, T) -> int, start: nat, mid: nat, end: nat, res: array<T>,
                            ghost whole: seq<T>, ghost l: seq<T>, ghost r: seq<T>) returns (i: nat, j: nat)
    requires p != res && start <= mid <= end <= p.Length && l == p[start..mid] && r == p[mid..end]
    requires Filled(res[..], whole, cmp, l, r, 0, 0)
    modifies res
    ensures Filled(res[..], whole, cmp, l, r, i, j) && (i < |l| ==> j == |r|)
  {
    i, j := 0, 0;
    while i < mid - start && j < end - mid
      invariant Filled(res[..], whole, cmp, l, r, i, j)
    {
      ghost var was := res[..];
      var comp := cmp(p[start + i], p[mid + j]);
      if comp >= 0 {
        res[i + j] := p[start + i];
        FillLeft(was, whole, cmp, l, r, i, j);
        i := i + 1;
      } else {
        res[i + j] := p[mid + j];
        FillRight(was, whole, cmp, l, r, i, j);
        j := j + 1;
      }
    }
  }

  method CopyLeft<T(!new)>(p: array<T>, cmp: (T, T) -> int, start: nat, mid: nat, res: array<T>, i0: nat, j: nat,
                           ghost whole: seq<T>, ghost l: seq<T>, ghost r: seq<T>) returns (i: nat)
    requires p != res && start <= mid <= p.Length && l == p[start..mid]
    requires Filled(res[..], whole, cmp, l, r, i0, j) && (i0 < |l| ==> j == |r|)
    modifies res
    ensures i == |l| && Filled(res[..], whole, cmp, l, r, i, j)
  {
    i := i0;
    while i < mid - start
      invariant Filled(res[..], whole, cmp, l, r, i, j) && (i < |l| ==> j == |r|)
    {
      ghost var was := res[..];
      res[i + j] := p[start + i];
      FillLeft(was, whole, cmp, l, r, i, j);
      i := i + 1;
    }
  }

  method CopyRight<T(!new)>(p: array<T>, cmp: (T, T) -> int, mid: nat, end: nat, res: array<T>, i: nat, j0: nat,
                            ghost whole: seq<T>, ghost l: seq<T>, ghost r: seq<T>)
    requires p != res && mid <= end <= p.Length && r == p[mid..end]
    requires Filled(res[..], whole, cmp, l, r, i, j0) && i == |l|
    modifies res
    ensures Filled(res[..], whole, cmp, l, r, i, |r|)
  {
    var j := j0;
    while j < end - mid
      invariant Filled(res[..], whole, cmp, l, r, i, j)
    {
      ghost var was := res[..];
      res[i + j] := p[mid + j];
      FillRight(was, whole, cmp, l, r, i, j);
      j := j + 1;
    }
  }

  /** s with its elements from start to end sorted. */
  function SortRange<T(!new)>(cmp: (T, T) -> int, s: seq<T>, start: nat, end: nat): seq<T>
    requires start <= end <= |s|
  {
    s[..start] + Sort(cmp, s[start..end]) + s[end..]
  }

  lemma SortRangeAll<T(!new)>(cmp: (T, T) -> int, s: seq<T>)
    ensures SortRange(cmp, s, 0, |s|) == Sort(cmp, s)
  {
    assert s[0..|s|] == s;
  }

  lemma SortRangeShort<T(!new)>(cmp: (T, T) -> int, s: seq<T>, start: nat, end: nat)
    requires start <= end <= |s| && end - start <= 1
    ensures SortRange(cmp, s, start, end) == s
  {
  }

  lemma SortRangeInside<T(!new)>(cmp: (T, T) -> int, s: seq<T>, start: nat, end: nat)
    requires start <= end <= |s|
    ensures SortRange(cmp, s, start, end)[start..end] == Sort(cmp, s[start..end])
  {
    hide Sort;
  }

  lemma SortRangeOutside<T(!new)>(cmp: (T, T) -> int, s: seq<T>, start: nat, end: nat, a: nat, b: nat)
    requires start <= end <= |s| && a <= b <= |s| && (b <= start || end <= a)
    ensures SortRange(cmp, s, start, end)[a..b] == s[a..b]
  {
    hide Sort;
    var t := SortRange(cmp, s, start, end);
    forall i | a <= i < b ensures t[i] == s[i] {
    }
    SameSlice(t, s, a, b);
  }

  lemma SameSlice<T>(s: seq<T>, t: seq<T>, a: nat, b: nat)
    requires |s| == |t| && a <= b <= |s| && forall i | a <= i < b :: s[i] == t[i]
    ensures s[a..b] == t[a..b]
  {
    var x, y := s[a..b], t[a..b];
    forall i | 0 <= i < b - a ensures x[i] == y[i] {
      assert x[i] == s[a + i] && y[i] == t[a + i];
    }
  }

  lemma SortHalves<T(!new)>(cmp: (T, T) -> int, s: seq<T>, start: nat, mid: nat, end: nat)
    requires start <= mid <= end <= |s|
    ensures var t := SortRange(cmp, SortRange(cmp, s, start, mid), mid, end);
            && t[start..mid] == Sort(cmp, s[start..mid]) && t[mid..end] == Sort(cmp, s[mid..end])
            && t[..start] == s[..start] && t[end..] == s[end..]
  {
    var half := SortRange(cmp, s, start, mid);
    SortRangeInside(cmp, s, start, mid);
    SortRangeOutside(cmp, half, mid, end, start, mid);
    SortRangeOutside(cmp, s, start, mid, mid, end);
    SortRangeInside(cmp, half, mid, end);
    SortRangeOutside(cmp, s, start, mid, 0, start);
    SortRangeOutside(cmp, half, mid, end, 0, start);
    SortRangeOutside(cmp, s, start, mid, end, |s|);
    SortRangeOutside(cmp, half, mid, end, end, |s|);
  }

  lemma SortWhole<T(!new)>(cmp: (T, T) -> int, s: seq<T>, start: nat, mid: nat, end: nat)
    requires start + 1 < end <= |s| && mid == (end + start) / 2
    ensures Sort(cmp, s[start..end]) == Merge(cmp, Sort(cmp, s[start..mid]), Sort(cmp, s[mid..end]))
  {
    var whole := s[start..end];
    assert |whole| / 2 == mid - start;
    assert whole[..|whole| / 2] == s[start..mid];
    assert whole[|whole| / 2..] == s[mid..end];
  }

  method CopyBack<T(!new)>(p: array<T>, start: nat, end: nat, res: array<T>)
    requires start <= end <= p.Length && res.Length == end - start && res != p
    modifies p
    ensures p[..] == old(p[..start]) + res[..] + old(p[end..])
  {
    for k := 0 to end - start
      invariant p[..start] == old(p[..start]) && p[end..] == old(p[end..])
      invariant forall m | 0 <= m < k :: p[start + m] == res[m]
    {
      p[k + start] := res[k];
    }
  }

  /** Sorts p[start..end] with a scratch array, and leaves the rest of p alone. */
  method HelperSortBy<T(!new)>(p: array<T>, cmp: (T, T) -> int, start: nat, end: nat)
    requires start <= end <= p.Length
    modifies p
    ensures p[..] == SortRange(cmp, old(p[..]), start, end)
    decreases end - start
  {
    hide Sort, Merge;
    if end - start > 1 {
      var mid := (end + start) / 2;
      SortHalves(cmp, p[..], start, mid, end);
      SortWhole(cmp, p[..], start, mid, end);
      HelperSortBy(p, cmp, start, mid);
      HelperSortBy(p, cmp, mid, end);
      var res, whole := MergeHalves(p, cmp, start, mid, end);
      FilledIsMerge(res[..], whole, cmp, p[start..mid], p[mid..end]);
      CopyBack(p, start, end, res);
    } else {
      SortRangeShort(cmp, p[..], start, end);
    }
  }
}
