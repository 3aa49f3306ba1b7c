/** What the merge sort of clientlog/processes.c does to rows its comparison cannot tell apart: since a merge
    takes the right half first, every sort turns their order round. */
module MergeTies {
  import opened CStrings
  import opened MergeSort

  /** Neither is above the other. */
  predicate Tied<T(!new)>(cmp: (T, T) -> int, a: T, b: T) {
    !Above(cmp, a, b) && !Above(cmp, b, a)
  }

  /** The elements tied with x, in order. */
  function TiesOf<T(!new)>(cmp: (T, T) -> int, x: T, s: seq<T>): seq<T> {
    if s == [] then [] else (if Tied(cmp, s[0], x) then [s[0]] else []) + TiesOf(cmp, x, s[1..])
  }

  lemma TiesOfCons<T(!new)>(cmp: (T, T) -> int, x: T, a: T, s: seq<T>)
    ensures TiesOf(cmp, x, [a] + s) == (if Tied(cmp, a, x) then [a] else []) + TiesOf(cmp, x, s)
  {
    assert ([a] + s)[1..] == s;
  }

  lemma {:induction false} TiesOfConcat<T(!new)>(cmp: (T, T) -> int, x: T, s: seq<T>, t: seq<T>)
    ensures TiesOf(cmp, x, s + t) == TiesOf(cmp, x, s) + TiesOf(cmp, x, t)
  {
    hide Tied;
    if s == [] {
      assert s + t == t;
    } else {
      var first, rest := s[0], s[1..];
      TiesOfConcat(cmp, x, rest, t);
      TiesOfCons(cmp, x, first, rest);
      TiesOfCons(cmp, x, first, rest + t);
      assert s == [first] + rest && s + t == [first] + (rest + t);
    }
  }

  /** Below an element above the first there is nothing tied with it. */
  lemma {:induction false} NoTiesBelow<T(!new)>(cmp: (T, T) -> int, x: T, a: T, s: seq<T>)
    requires IsRanking(cmp) && Tied(cmp, a, x) && forall y | y in s :: Above(cmp, a, y)
    ensures TiesOf(cmp, x, s) == []
  {
    if s != [] {
      assert Above(cmp, a, s[0]);
      NoTiesBelow(cmp, x, a, s[1..]);
    }
  }

  lemma AboveAll<T(!new)>(cmp: (T, T) -> int, a: T, s: seq<T>)
    requires IsRanking(cmp) && Sorted(cmp, s) && s != [] && Above(cmp, a, s[0])
    ensures forall y | y in s :: Above(cmp, a, y)
  {
    forall y | y in s ensures Above(cmp, a, y) {
      var j :| 0 <= j < |s| && s[j] == y;
      if j > 0 { assert !Above(cmp, s[j], s[0]); }
    }
  }

  lemma LeftFirst<T(!new)>(cmp: (T, T) -> int, x: T, l: seq<T>, r: seq<T>, m: seq<T>)
    requires IsRanking(cmp) && Sorted(cmp, r) && l != [] && r != [] && Above(cmp, l[0], r[0])
    requires TiesOf(cmp, x, m) == TiesOf(cmp, x, r) + TiesOf(cmp, x, l[1..])
    ensures TiesOf(cmp, x, [l[0]] + m) == TiesOf(cmp, x, r) + TiesOf(cmp, x, l)
  {
    hide IsRanking, Sorted, TiesOf;
    TiesOfCons(cmp, x, l[0], m);
    TiesOfCons(cmp, x, l[0], l[1..]);
    assert l == [l[0]] + l[1..];
    if Tied(cmp, l[0], x) {
      AboveAll(cmp, l[0], r);
      NoTiesBelow(cmp, x, l[0], r);
    }
  }

  lemma RightFirst<T(!new)>(cmp: (T, T) -> int, x: T, l: seq<T>, r: seq<T>, m: seq<T>)
    requires r != [] && TiesOf(cmp, x, m) == TiesOf(cmp, x, r[1..]) + TiesOf(cmp, x, l)
    ensures TiesOf(cmp, x, [r[0]] + m) == TiesOf(cmp, x, r) + TiesOf(cmp, x, l)
  {
    hide TiesOf, Tied;
    TiesOfCons(cmp, x, r[0], m);
    TiesOfCons(cmp, x, r[0], r[1..]);
    assert r == [r[0]] + r[1..];
  }

  /** A merge puts the tied elements of the right half before those of the left. */
  lemma {:induction false} MergeReversesTies<T(!new)>(cmp: (T, T) -> int, x: T, l: seq<T>, r: seq<T>)
    requires IsRanking(cmp) && Sorted(cmp, l) && Sorted(cmp, r)
    ensures TiesOf(cmp, x, Merge(cmp, l, r)) == TiesOf(cmp, x, r) + TiesOf(cmp, x, l)
    decreases |l| + |r|
  {
    hide IsRanking, Sorted, TiesOf, Merge;
    MergeUnfolds(cmp, l, r);
    NoTiesInNothing(cmp, x);
    if l != [] && r != [] {
      if Above(cmp, l[0], r[0]) {
        SortedUncons(cmp, l);
        MergeReversesTies(cmp, x, l[1..], r);
        LeftFirst(cmp, x, l, r, Merge(cmp, l[1..], r));
      } else {
        SortedUncons(cmp, r);
        MergeReversesTies(cmp, x, l, r[1..]);
        RightFirst(cmp, x, l, r, Merge(cmp, l, r[1..]));
      }
    }
  }

  lemma MergeUnfolds<T(!new)>(cmp: (T, T) -> int, l: seq<T>, r: seq<T>)
    ensures Merge(cmp, l, r) ==
            if l == [] then r
            else if r == [] then l
            else if Above(cmp, l[0], r[0]) then [l[0]] + Merge(cmp, l[1..], r)
            else [r[0]] + Merge(cmp, l, r[1..])
  {
  }

  lemma NoTiesInNothing<T(!new)>(cmp: (T, T) -> int, x: T)
    ensures TiesOf(cmp, x, []) == []
  {
  }

  lemma ReversedConcat<T>(s: seq<T>, t: seq<T>)
    ensures Reversed(s + t) == Reversed(t) + Reversed(s)
  {
  }

  /** Every sort of every table turns the order of tied elements round. */
  lemma {:induction false} SortReversesTies<T(!new)>(cmp: (T, T) -> int, x: T, s: seq<T>)
    requires IsRanking(cmp)
    ensures TiesOf(cmp, x, Sort(cmp, s)) == Reversed(TiesOf(cmp, x, s))
    decreases |s|
  {
    hide TiesOf, Merge, Reversed, IsRanking, Sorted;
    if |s| <= 1 {
      OneIsReversed(cmp, x, s);
    } else {
      var l, r := s[..|s| / 2], s[|s| / 2..];
      SortReversesTies(cmp, x, l);
      SortReversesTies(cmp, x, r);
      SortSorts(cmp, l);
      SortSorts(cmp, r);
      MergeReversesTies(cmp, x, Sort(cmp, l), Sort(cmp, r));
      assert s == l + r;
      TiesOfConcat(cmp, x, l, r);
      ReversedConcat(TiesOf(cmp, x, l), TiesOf(cmp, x, r));
    }
  }

  lemma OneIsReversed<T(!new)>(cmp: (T, T) -> int, x: T, s: seq<T>)
    requires |s| <= 1
    ensures TiesOf(cmp, x, s) == Reversed(TiesOf(cmp, x, s))
  {
    if s != [] { assert s[1..] == []; }
  }

  /** Tied elements come out in the order they were in. */
  ghost predicate KeepsTies<T(!new)>(cmp: (T, T) -> int, s: seq<T>) {
    forall x | x in s :: TiesOf(cmp, x, Sort(cmp, s)) == TiesOf(cmp, x, s)
  }

  /** They do exactly when each class of tied elements reads the same backwards. */
  lemma KeepsTiesExact<T(!new)>(cmp: (T, T) -> int, s: seq<T>)
    requires IsRanking(cmp)
    ensures KeepsTies(cmp, s) <==> forall x | x in s :: Reversed(TiesOf(cmp, x, s)) == TiesOf(cmp, x, s)
  {
    forall x | x in s ensures TiesOf(cmp, x, Sort(cmp, s)) == Reversed(TiesOf(cmp, x, s)) {
      SortReversesTies(cmp, x, s);
    }
  }

  // ---------- one canonical order

  lemma TwoInFront<T(!new)>(cmp: (T, T) -> int, a: T, b: T, rest: seq<T>)
    requires IsRanking(cmp) && Tied(cmp, a, b)
    ensures TiesOf(cmp, a, [a, b] + rest) == [a, b] + TiesOf(cmp, a, rest)
    ensures TiesOf(cmp, a, [b, a] + rest) == [b, a] + TiesOf(cmp, a, rest)
  {
    assert [a, b] + rest == [a] + ([b] + rest) && [b, a] + rest == [b] + ([a] + rest);
    TiesOfCons(cmp, a, a, [b] + rest);
    TiesOfCons(cmp, a, b, rest);
    TiesOfCons(cmp, a, b, [a] + rest);
    TiesOfCons(cmp, a, a, rest);
    assert Tied(cmp, a, a) && Tied(cmp, b, a);
  }

  /** Exchanging two different tied elements in front of a table changes what the sort makes of it. */
  lemma OrderMatters<T(!new)>(cmp: (T, T) -> int, a: T, b: T, rest: seq<T>)
    requires IsRanking(cmp) && a != b && Tied(cmp, a, b)
    ensures Sort(cmp, [a, b] + rest) != Sort(cmp, [b, a] + rest)
  {
    hide Sort, TiesOf, IsRanking;
    SortReversesTies(cmp, a, [a, b] + rest);
    SortReversesTies(cmp, a, [b, a] + rest);
    TwoInFront(cmp, a, b, rest);
    LastDiffers([a, b] + TiesOf(cmp, a, rest), [b, a] + TiesOf(cmp, a, rest));
  }

  lemma LastDiffers<T>(s: seq<T>, t: seq<T>)
    requires |s| == |t| > 0 && s[0] != t[0]
    ensures Reversed(s) != Reversed(t)
  {
    assert Reversed(s)[|s| - 1] == s[0] && Reversed(t)[|t| - 1] == t[0];
  }

  /** Every order of the same elements sorts to the same sequence. */
  ghost predicate Canonical<T(!new)>(cmp: (T, T) -> int, s: seq<T>) {
    forall t: seq<T> | multiset(t) == multiset(s) :: Sort(cmp, t) == Sort(cmp, s)
  }

  /** A table has one canonical order exactly when all its different elements can be told apart. */
  lemma CanonicalExact<T(!new)>(cmp: (T, T) -> int, s: seq<T>)
    requires IsRanking(cmp)
    ensures Canonical(cmp, s) <==> ToldApart(cmp, s)
  {
    hide Sort, IsRanking;
    if ToldApart(cmp, s) {
      forall t: seq<T> | multiset(t) == multiset(s) ensures Sort(cmp, t) == Sort(cmp, s) {
        SortCanonical(cmp, s, t);
      }
    } else {
      var a, b :| a in s && b in s && a != b && Tied(cmp, a, b);
      var rest := BothInFront(s, a, b);
      OrderMatters(cmp, a, b, rest);
    }
  }

  lemma BothInFront<T(!new)>(s: seq<T>, a: T, b: T) returns (rest: seq<T>)
    requires a in s && b in s && a != b
    ensures multiset([a, b] + rest) == multiset(s) == multiset([b, a] + rest)
  {
    var t := TakeOut(s, a);
    assert b in multiset(s) && multiset(t)[b] == multiset(s)[b];
    assert b in t;
    rest := TakeOut(t, b);
    assert multiset([a, b]) == multiset{a} + multiset{b} == multiset([b, a]);
  }

  lemma TakeOut<T>(s: seq<T>, a: T) returns (t: seq<T>)
    requires a in s
    ensures multiset(s) == multiset{a} + multiset(t)
  {
    var i :| 0 <= i < |s| && s[i] == a;
    t := s[..i] + s[i + 1..];
    assert s == s[..i] + [a] + s[i + 1..];
  }
}
