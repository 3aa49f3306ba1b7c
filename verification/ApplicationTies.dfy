/** What the tree of clientlog/applications.c does to applications with the same name and architecture: one goes
    to the left of the first of them it meets whose left child is free, and so may come out before it. */
module ApplicationTies {
  import opened CStrings
  import opened MergeSort
  import opened MergeTies
  import opened SearchTree
  import opened Applications

  // ---------- one insertion

  /** On its way down the new application never takes the free left child of one with its key. */
  predicate KeepsOrder(t: Tree<Application>, a: Application) {
    match t
    case Leaf => true
    case Node(l, v, r) =>
      if Compare(a, v) < 0 then KeepsOrder(l, a)
      else (Compare(a, v) == 0 ==> l != Leaf) && KeepsOrder(r, a)
  }

  /** No row from position k on has the key of a. */
  ghost predicate Behind(s: seq<Application>, a: Application, k: nat) {
    forall i | k <= i < |s| :: Compare(s[i], a) != 0
  }

  lemma BehindLeft(l: seq<Application>, v: Application, r: seq<Application>, a: Application, k: nat)
    requires Applications.Sorted(l + [v] + r) && Compare(a, v) < 0 && k <= |l|
    ensures Behind(l + [v] + r, a, k) <==> Behind(l, a, k)
  {
    var s := l + [v] + r;
    forall i | |l| <= i < |s| ensures Compare(s[i], a) != 0 {
      CompareSwap(a, v);
      CompareSwap(s[i], a);
      if i > |l| {
        assert Compare(s[|l|], s[i]) <= 0;
        LessThan(a, v, s[i]);
      }
    }
    assert forall i | 0 <= i < |l| :: s[i] == l[i];
  }

  lemma LessThan(a: Application, b: Application, c: Application)
    requires Compare(a, b) < 0 && Compare(b, c) <= 0
    ensures Compare(a, c) < 0
  {
    CompareTransitive(a, b, c);
    CompareSwap(a, c);
    CompareSwap(a, b);
    if Compare(c, a) <= 0 { CompareTransitive(b, c, a); }
  }

  lemma BehindRight(l: seq<Application>, v: Application, r: seq<Application>, a: Application, k: nat)
    ensures Behind(l + [v] + r, a, |l| + 1 + k) <==> Behind(r, a, k)
  {
    var s := l + [v] + r;
    assert forall i | 0 <= i < |r| :: s[|l| + 1 + i] == r[i];
    if Behind(s, a, |l| + 1 + k) {
      forall i | k <= i < |r| ensures Compare(r[i], a) != 0 {
        assert s[|l| + 1 + i] == r[i];
      }
    }
    if Behind(r, a, k) {
      forall i | |l| + 1 + k <= i < |s| ensures Compare(s[i], a) != 0 {
        assert s[i] == r[i - |l| - 1];
      }
    }
  }

  lemma SortedParts(l: seq<Application>, v: Application, r: seq<Application>)
    requires Applications.Sorted(l + [v] + r)
    ensures Applications.Sorted(l) && Applications.Sorted(r)
  {
    var s := l + [v] + r;
    assert forall i | 0 <= i < |l| :: s[i] == l[i];
    forall i, j | 0 <= i < j < |r| ensures Compare(r[i], r[j]) <= 0 {
      assert s[|l| + 1 + i] == r[i] && s[|l| + 1 + j] == r[j];
    }
  }

  /** In every tree, a new application comes out behind all of its key exactly when it never takes the free left
      child of one of them. */
  lemma {:induction false} KeepsOrderExact(t: Tree<Application>, a: Application)
    requires Applications.Sorted(InOrder(t))
    ensures KeepsOrder(t, a) <==> Behind(InOrder(t), a, Place(t, a))
    ensures Place(t, a) <= |InOrder(t)|
  {
    hide Compare, Behind, Applications.Sorted;
    match t {
      case Leaf => NothingBehind(a);
      case Node(l, v, r) =>
        SortedParts(InOrder(l), v, InOrder(r));
        if Compare(a, v) < 0 {
          KeepsOrderExact(l, a);
          BehindLeft(InOrder(l), v, InOrder(r), a, Place(l, a));
        } else if Compare(a, v) == 0 && l == Leaf {
          NotBehind(InOrder(t), v, a);
        } else {
          KeepsOrderExact(r, a);
          BehindRight(InOrder(l), v, InOrder(r), a, Place(r, a));
        }
    }
  }

  lemma NothingBehind(a: Application)
    ensures Behind([], a, 0)
  {
  }

  lemma NotBehind(s: seq<Application>, v: Application, a: Application)
    requires s != [] && s[0] == v && Compare(a, v) == 0
    ensures !Behind(s, a, 0)
  {
    CompareSwap(a, v);
  }

  // ---------- whole runs

  /** Applications with one key come out in the order they were inserted. */
  ghost predicate Stable(apps: seq<Application>) {
    forall x: Application :: TiesOf(Before(), x, InOrder(TreeOf(apps))) == TiesOf(Before(), x, apps)
  }

  /** Every insertion of the run keeps the order. */
  ghost predicate RunKeepsOrder(apps: seq<Application>) {
    forall n | 0 <= n < |apps| :: KeepsOrder(TreeOf(apps[..n]), apps[n])
  }

  lemma TiedIsEqualKey(a: Application, b: Application)
    ensures Tied(Before(), a, b) <==> Compare(a, b) == 0
  {
    CompareSwap(a, b);
  }

  /** The ties of a spliced sequence. */
  lemma TiesOfSplice(s: seq<Application>, a: Application, k: nat, s': seq<Application>, x: Application)
    requires SplicedAt(s, a, k, s')
    ensures TiesOf(Before(), x, s) == TiesOf(Before(), x, s[..k]) + TiesOf(Before(), x, s[k..])
    ensures TiesOf(Before(), x, s') ==
            TiesOf(Before(), x, s[..k]) + (if Tied(Before(), a, x) then [a] else []) + TiesOf(Before(), x, s[k..])
  {
    hide TiesOf, Tied, Before;
    assert s == s[..k] + s[k..] && s' == s[..k] + ([a] + s[k..]);
    TiesOfConcat(Before(), x, s[..k], s[k..]);
    TiesOfConcat(Before(), x, s[..k], [a] + s[k..]);
    TiesOfCons(Before(), x, a, s[k..]);
  }

  lemma {:induction false} NoTies(s: seq<Application>, x: Application)
    ensures TiesOf(Before(), x, s) == [] <==> forall i | 0 <= i < |s| :: Compare(s[i], x) != 0
  {
    if s != [] {
      TiedIsEqualKey(s[0], x);
      NoTies(s[1..], x);
      assert forall i | 0 < i < |s| :: s[i] == s[1..][i - 1];
      assert forall i | 0 <= i < |s[1..]| :: s[1..][i] == s[i + 1];
    }
  }

  lemma NoTiesBehind(s: seq<Application>, a: Application, k: nat)
    requires k <= |s|
    ensures TiesOf(Before(), a, s[k..]) == [] <==> Behind(s, a, k)
  {
    NoTies(s[k..], a);
    assert forall i | k <= i < |s| :: s[i] == s[k..][i - k];
    assert forall i | 0 <= i < |s[k..]| :: s[k..][i] == s[i + k];
  }

  /** An application that stays behind its key comes last among its ties. */
  lemma StableNext(apps: seq<Application>, a: Application)
    requires Stable(apps) && KeepsOrder(TreeOf(apps), a)
    ensures Stable(apps + [a])
  {
    hide TiesOf, Tied, Before, Compare, TreeOf, Insert, InOrder, KeepsOrder, Place;
    var s, k := InOrder(TreeOf(apps)), Place(TreeOf(apps), a);
    TraversalIsListing(apps);
    KeepsOrderExact(TreeOf(apps), a);
    NoTiesBehind(s, a, k);
    InsertSplices(TreeOf(apps), a);
    TreeOfNext(apps, a);
    forall x: Application ensures TiesOf(Before(), x, InOrder(TreeOf(apps + [a]))) == TiesOf(Before(), x, apps + [a]) {
      TiesOfSplice(s, a, k, InOrder(TreeOf(apps + [a])), x);
      TiesOfLast(apps, a, x);
      if Tied(Before(), a, x) { SameTies(s[k..], a, x); }
    }
  }

  lemma TiesOfLast(apps: seq<Application>, a: Application, x: Application)
    ensures TiesOf(Before(), x, apps + [a])
            == TiesOf(Before(), x, apps) + (if Tied(Before(), a, x) then [a] else [])
  {
    hide Tied, Before;
    TiesOfConcat(Before(), x, apps, [a]);
    assert [a] == [a] + [] && TiesOf(Before(), x, []) == [];
    TiesOfCons(Before(), x, a, []);
  }

  lemma {:induction false} SameTies(s: seq<Application>, a: Application, x: Application)
    requires Tied(Before(), a, x)
    ensures TiesOf(Before(), x, s) == TiesOf(Before(), a, s)
  {
    if s != [] {
      BeforeRanks();
      SameTies(s[1..], a, x);
    }
  }

  /** An application that comes last among its ties stays behind its key, and the others are in order too. */
  lemma StablePrefix(apps: seq<Application>, a: Application)
    requires Stable(apps + [a]) && a !in apps
    ensures Stable(apps) && KeepsOrder(TreeOf(apps), a)
  {
    hide TiesOf, Tied, Before, Compare, TreeOf, Insert, InOrder, KeepsOrder, Place;
    var s, k := InOrder(TreeOf(apps)), Place(TreeOf(apps), a);
    TraversalIsListing(apps);
    InsertSplices(TreeOf(apps), a);
    TreeOfNext(apps, a);
    SameElements(s, apps, a);
    forall x: Application
      ensures TiesOf(Before(), x, s) == TiesOf(Before(), x, apps)
      ensures Tied(Before(), a, x) ==> TiesOf(Before(), x, s[k..]) == []
    {
      TiesOfSplice(s, a, k, InOrder(TreeOf(apps + [a])), x);
      TiesOfLast(apps, a, x);
      if Tied(Before(), a, x) {
        TiesAreIn(s[k..], x);
        LastIs(TiesOf(Before(), x, s[..k]), TiesOf(Before(), x, s[k..]), TiesOf(Before(), x, apps), a);
        assert TiesOf(Before(), x, s[..k]) + [] == TiesOf(Before(), x, s[..k]);
      } else {
        assert TiesOf(Before(), x, s[..k]) + [] == TiesOf(Before(), x, s[..k]);
        assert TiesOf(Before(), x, apps) + [] == TiesOf(Before(), x, apps);
      }
    }
    TiedIsEqualKey(a, a);
    CompareSelf(a);
    NoTiesBehind(s, a, k);
    KeepsOrderExact(TreeOf(apps), a);
  }

  lemma SameElements<T>(s: seq<T>, t: seq<T>, a: T)
    requires multiset(s) == multiset(t)
    ensures a in s <==> a in t
  {
    assert a in s <==> a in multiset(s);
    assert a in t <==> a in multiset(t);
  }

  lemma CompareSelf(a: Application)
    ensures Compare(a, a) == 0
  {
    CompareSwap(a, a);
  }

  lemma {:induction false} TiesAreIn(s: seq<Application>, x: Application)
    ensures forall y | y in TiesOf(Before(), x, s) :: y in s
  {
    if s != [] {
      TiesAreIn(s[1..], x);
    }
  }

  lemma LastIs<T>(one: seq<T>, two: seq<T>, all: seq<T>, a: T)
    requires one + [a] + two == all + [a] && a !in two
    ensures two == [] && one == all
  {
    assert (all + [a])[|all|] == a;
    if two == [] {
      assert one + [a] + two == one + [a];
      assert one == (one + [a])[..|one|] && all == (all + [a])[..|all|];
    } else {
      LastOf(one + [a], two);
    }
  }

  lemma LastOf<T>(s: seq<T>, t: seq<T>)
    requires t != []
    ensures (s + t)[|s + t| - 1] in t
  {
    assert (s + t)[|s + t| - 1] == t[|t| - 1];
  }

  ghost predicate NoRepeats(apps: seq<Application>) {
    forall i, j | 0 <= i < j < |apps| :: apps[i] != apps[j]
  }

  /** When every insertion keeps the order, all applications with one key come out in the order of insertion; and
      when no two are the same in every field, only then. */
  lemma {:induction false} StableExact(apps: seq<Application>)
    ensures RunKeepsOrder(apps) ==> Stable(apps)
    ensures NoRepeats(apps) ==> (Stable(apps) <==> RunKeepsOrder(apps))
  {
    hide Stable, KeepsOrder, TreeOf;
    if apps == [] {
      StableEmpty();
    } else {
      var front, a := apps[..|apps| - 1], apps[|apps| - 1];
      StableExact(front);
      assert apps == front + [a];
      assert forall n | 0 <= n < |front| :: apps[..n] == front[..n] && apps[n] == front[n];
      assert apps[..|front|] == front;
      if RunKeepsOrder(apps) {
        assert RunKeepsOrder(front);
        assert KeepsOrder(TreeOf(apps[..|front|]), apps[|front|]);
        StableNext(front, a);
      }
      if NoRepeats(apps) && Stable(apps) { StablePrefix(front, a); }
    }
  }

  lemma StableEmpty()
    ensures Stable([])
  {
  }

  // ---------- examples

  /** Of three with one key and nothing else in the tree, the second comes out before the first. */
  lemma DuplicatesAreReordered(a: Application, b: Application, c: Application)
    requires Compare(a, b) == 0 && Compare(a, c) == 0
    ensures InOrder(TreeOf([a, b, c])) == [b, a, c]
  {
    hide Compare, Insert, InOrder, TreeOf;
    CompareSwap(a, b);
    CompareSwap(a, c);
    TreeOfThree(a, b, c);
    InsertLeaf(a);
    InsertLeaf(b);
    InsertLeaf(c);
    InsertNode(Leaf, a, Leaf, b);
    InsertNode(Node(Leaf, b, Leaf), a, Leaf, c);
    InOrderLeaf(b);
    InOrderLeaf(c);
    InOrderNode(Node(Leaf, b, Leaf), a, Node(Leaf, c, Leaf));
  }

  /** With an application before it in the tree, the second of two with one key stays behind the first. */
  lemma OrderKeptBehind(a: Application, x: Application, b: Application)
    requires Compare(x, a) < 0 && Compare(b, a) == 0
    ensures InOrder(TreeOf([a, x, b])) == [x, a, b]
  {
    hide Compare, Insert, InOrder, TreeOf;
    TreeOfThree(a, x, b);
    InsertLeaf(a);
    InsertLeaf(x);
    InsertLeaf(b);
    InsertNode(Leaf, a, Leaf, x);
    InsertNode(Node(Leaf, x, Leaf), a, Leaf, b);
    InOrderLeaf(x);
    InOrderLeaf(b);
    InOrderNode(Node(Leaf, x, Leaf), a, Node(Leaf, b, Leaf));
  }

  lemma TreeOfThree(a: Application, b: Application, c: Application)
    ensures TreeOf([a, b, c]) == Insert(Insert(Insert(Leaf, a), b), c)
  {
    hide Insert;
    TreeOfNext([], a);
    TreeOfNext([a], b);
    TreeOfNext([a, b], c);
    assert [] + [a] == [a] && [a] + [b] == [a, b] && [a, b] + [c] == [a, b, c];
  }

  lemma InOrderLeaf(a: Application)
    ensures InOrder(Node(Leaf, a, Leaf)) == [a]
  {
    InOrderNode(Leaf, a, Leaf);
  }
}
