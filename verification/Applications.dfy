/** The list of installed applications of clientlog/applications.c: a binary search tree by name and
    architecture that keeps duplicates, on the left if that child is free and on the right otherwise. */
module Applications {
  import opened CStrings
  import MergeSort
  import opened SearchTree

  datatype Arch = X86_32 | X86_64

  datatype Application = Application(name: string, version: string, publisher: string, architecture: Arch)

  const MAX_APPLICATION_NAME := 64

  /** strncmp: the sign of the first difference among the first n characters. */
  function Strncmp(a: string, b: string, n: nat): (r: int)
    ensures -1 <= r <= 1
  {
    if n == 0 then 0
    else if a == [] then (if b == [] then 0 else -1)
    else if b == [] || a[0] > b[0] then 1
    else if a[0] < b[0] then -1
    else Strncmp(a[1..], b[1..], n - 1)
  }

  function ArchCode(a: Arch): int {
    match a case X86_32 => 0 case X86_64 => 1
  }

  function Compare(a: Application, b: Application): int {
    var c := Strncmp(a.name, b.name, MAX_APPLICATION_NAME);
    if c != 0 then c else ArchCode(a.architecture) - ArchCode(b.architecture)
  }

  lemma {:induction false} StrncmpSwap(a: string, b: string, n: nat)
    ensures Strncmp(a, b, n) == -Strncmp(b, a, n)
  {
    if n > 0 && a != [] && b != [] {
      StrncmpSwap(a[1..], b[1..], n - 1);
    }
  }

  lemma {:induction false} StrncmpTransitive(a: string, b: string, c: string, n: nat)
    requires Strncmp(a, b, n) <= 0 && Strncmp(b, c, n) <= 0
    ensures Strncmp(a, c, n) <= 0
    ensures Strncmp(a, c, n) == 0 ==> Strncmp(a, b, n) == 0 && Strncmp(b, c, n) == 0
  {
    if n > 0 && a != [] && b != [] && c != [] && a[0] == b[0] == c[0] {
      StrncmpTransitive(a[1..], b[1..], c[1..], n - 1);
    }
  }

  /** Names compare as equal exactly when their first n characters are the same. */
  lemma {:induction false} StrncmpZero(a: string, b: string, n: nat)
    ensures Strncmp(a, b, n) == 0 <==> Take(a, n) == Take(b, n)
  {
    if n > 0 && a != [] && b != [] {
      StrncmpZero(a[1..], b[1..], n - 1);
      TakeCons(a, n);
      TakeCons(b, n);
    }
  }

  lemma TakeCons(s: string, n: nat)
    requires n > 0 && s != []
    ensures Take(s, n) == [s[0]] + Take(s[1..], n - 1) && Take(s, n)[1..] == Take(s[1..], n - 1)
  {
  }

  /** A name is less than another exactly when what is looked at of it comes before in a dictionary. */
  lemma {:induction false} StrncmpAlphabetical(a: string, b: string, n: nat)
    ensures Strncmp(a, b, n) < 0 <==> Earlier(Take(a, n), Take(b, n))
  {
    hide Earlier, Take;
    if n == 0 || a == "" || b == "" {
      EarlierEmpty(Take(a, n), Take(b, n));
    } else {
      StrncmpAlphabetical(a[1..], b[1..], n - 1);
      TakeCons(a, n);
      TakeCons(b, n);
      EarlierCons(a[0], Take(a[1..], n - 1), b[0], Take(b[1..], n - 1));
    }
  }

  /** What a reader of the list expects of a row and one below it: names in alphabetical order, and of one name
      the 32-bit application first. */
  ghost predicate MayPrecede(a: Application, b: Application) {
    var x, y := Take(a.name, MAX_APPLICATION_NAME), Take(b.name, MAX_APPLICATION_NAME);
    if x == y then a.architecture == X86_32 || b.architecture == X86_64 else Earlier(x, y)
  }

  lemma ComparesInOrder(a: Application, b: Application)
    ensures Compare(a, b) <= 0 <==> MayPrecede(a, b)
  {
    hide Strncmp, Earlier;
    StrncmpZero(a.name, b.name, MAX_APPLICATION_NAME);
    StrncmpAlphabetical(a.name, b.name, MAX_APPLICATION_NAME);
  }

  ghost predicate InListOrder(s: seq<Application>) {
    forall i, j | 0 <= i < j < |s| :: MayPrecede(s[i], s[j])
  }

  lemma SortedInOrder(s: seq<Application>)
    ensures Sorted(s) <==> InListOrder(s)
  {
    hide Compare, MayPrecede;
    forall i, j | 0 <= i < j < |s| ensures Compare(s[i], s[j]) <= 0 <==> MayPrecede(s[i], s[j]) {
      ComparesInOrder(s[i], s[j]);
    }
  }

  lemma CompareTransitive(a: Application, b: Application, c: Application)
    requires Compare(a, b) <= 0 && Compare(b, c) <= 0
    ensures Compare(a, c) <= 0
  {
    StrncmpTransitive(a.name, b.name, c.name, MAX_APPLICATION_NAME);
  }

  lemma CompareSwap(a: Application, b: Application)
    ensures Compare(a, b) == -Compare(b, a)
  {
    StrncmpSwap(a.name, b.name, MAX_APPLICATION_NAME);
  }

  /** Where an application goes. */
  function Insert(t: Tree<Application>, a: Application): Tree<Application> {
    match t
    case Leaf => Node(Leaf, a, Leaf)
    case Node(l, v, r) =>
      if Compare(a, v) < 0 || (Compare(a, v) == 0 && l == Leaf) then Node(Insert(l, a), v, r)
      else Node(l, v, Insert(r, a))
  }

  function TreeOf(apps: seq<Application>): Tree<Application> {
    if apps == [] then Leaf else Insert(TreeOf(apps[..|apps| - 1]), apps[|apps| - 1])
  }

  ghost predicate Sorted(s: seq<Application>) {
    forall i, j | 0 <= i < j < |s| :: Compare(s[i], s[j]) <= 0
  }

  predicate Between(s: seq<Application>, a: Application, k: nat) {
    k <= |s| && (k > 0 ==> Compare(s[k - 1], a) <= 0) && (k < |s| ==> Compare(a, s[k]) <= 0)
  }

  /** The position in the traversal where a new row comes out. */
  function Place(t: Tree<Application>, a: Application): nat {
    match t
    case Leaf => 0
    case Node(l, v, r) =>
      if Compare(a, v) < 0 || (Compare(a, v) == 0 && l == Leaf) then Place(l, a) else |InOrder(l)| + 1 + Place(r, a)
  }

  lemma InsertLeaf(a: Application)
    ensures Insert(Leaf, a) == Node(Leaf, a, Leaf) && Place(Leaf, a) == 0
  {
  }

  lemma InsertNode(l: Tree<Application>, v: Application, r: Tree<Application>, a: Application)
    ensures var goesLeft := Compare(a, v) < 0 || (Compare(a, v) == 0 && l == Leaf);
            && Insert(Node(l, v, r), a) == (if goesLeft then Node(Insert(l, a), v, r) else Node(l, v, Insert(r, a)))
            && Place(Node(l, v, r), a) == if goesLeft then Place(l, a) else |InOrder(l)| + 1 + Place(r, a)
  {
    hide Compare;
  }

  lemma BetweenLeft(l: seq<Application>, v: Application, r: seq<Application>, a: Application, k: nat)
    requires Between(l, a, k) && Compare(a, v) <= 0
    ensures Between(l + [v] + r, a, k)
  {
  }

  lemma BetweenRight(l: seq<Application>, v: Application, r: seq<Application>, a: Application, k: nat)
    requires Between(r, a, k) && Compare(v, a) <= 0
    ensures Between(l + [v] + r, a, |l| + 1 + k)
  {
  }

  /** Every insertion, of a duplicate too, adds one row where its neighbours allow it. */
  lemma {:induction false} InsertSplices(t: Tree<Application>, a: Application)
    ensures SplicedAt(InOrder(t), a, Place(t, a), InOrder(Insert(t, a))) && Between(InOrder(t), a, Place(t, a))
  {
    hide Compare, Between, SplicedAt, Insert, Place, InOrder;
    match t {
      case Leaf => LeafSplices(a);
      case Node(l, v, r) =>
        CompareSwap(a, v);
        InsertNode(l, v, r, a);
        InOrderNode(l, v, r);
        if Compare(a, v) < 0 || (Compare(a, v) == 0 && l == Leaf) {
          InsertSplices(l, a);
          InOrderNode(Insert(l, a), v, r);
          SpliceLeft(InOrder(l), InOrder(Insert(l, a)), v, InOrder(r), a, Place(l, a));
          BetweenLeft(InOrder(l), v, InOrder(r), a, Place(l, a));
        } else {
          InsertSplices(r, a);
          InOrderNode(l, v, Insert(r, a));
          SpliceRight(InOrder(l), v, InOrder(r), InOrder(Insert(r, a)), a, Place(r, a));
          BetweenRight(InOrder(l), v, InOrder(r), a, Place(r, a));
        }
    }
  }

  lemma LeafSplices(a: Application)
    ensures SplicedAt(InOrder(Leaf), a, Place(Leaf, a), InOrder(Insert(Leaf, a)))
    ensures Between(InOrder(Leaf), a, Place(Leaf, a))
  {
    InsertLeaf(a);
    InOrderNode(Leaf, a, Leaf);
  }

  lemma SpliceSorts(s: seq<Application>, a: Application, k: nat, s': seq<Application>)
    requires Sorted(s) && Between(s, a, k) && SplicedAt(s, a, k, s')
    ensures Sorted(s')
  {
    hide Compare;
    forall i, j | 0 <= i < j < |s'| ensures Compare(s'[i], s'[j]) <= 0 {
      if i == k && j > k + 1 {
        CompareTransitive(a, s[k], s[j - 1]);
      } else if j == k && i < k - 1 {
        CompareTransitive(s[i], s[k - 1], a);
      }
    }
  }

  lemma InsertSorts(t: Tree<Application>, a: Application)
    requires Sorted(InOrder(t))
    ensures Sorted(InOrder(Insert(t, a)))
    ensures multiset(InOrder(Insert(t, a))) == multiset(InOrder(t)) + multiset{a}
  {
    var k := Place(t, a);
    InsertSplices(t, a);
    SpliceAdds(InOrder(t), a, k, InOrder(Insert(t, a)));
    SpliceSorts(InOrder(t), a, k, InOrder(Insert(t, a)));
  }

  lemma TreeOfNext(apps: seq<Application>, a: Application)
    ensures TreeOf(apps + [a]) == Insert(TreeOf(apps), a)
  {
    assert (apps + [a])[..|apps|] == apps;
  }

  /** s holds the applications, each as often, in order of name and architecture. */
  ghost predicate IsListing(s: seq<Application>, apps: seq<Application>) {
    Sorted(s) && multiset(s) == multiset(apps)
  }

  lemma ListingNext(t: Tree<Application>, apps: seq<Application>, a: Application)
    requires IsListing(InOrder(t), apps)
    ensures IsListing(InOrder(Insert(t, a)), apps + [a])
  {
    InsertSorts(t, a);
  }

  /** After any insertions the traversal is sorted by name and architecture, and holds everything that was
      inserted as often as it was. */
  lemma {:induction false} TraversalIsListing(apps: seq<Application>)
    ensures IsListing(InOrder(TreeOf(apps)), apps)
    ensures InListOrder(InOrder(TreeOf(apps)))
  {
    hide Insert, IsListing, InListOrder;
    ListingInOrder(InOrder(TreeOf(apps)), apps);
    if apps == [] {
      NothingIsListed();
    } else {
      var front, a := apps[..|apps| - 1], apps[|apps| - 1];
      TraversalIsListing(front);
      ListingNext(TreeOf(front), front, a);
      TreeOfNext(front, a);
      assert apps == front + [a];
    }
  }

  lemma ListingInOrder(s: seq<Application>, apps: seq<Application>)
    ensures IsListing(s, apps) ==> InListOrder(s)
  {
    hide Sorted, InListOrder;
    SortedInOrder(s);
  }

  lemma NothingIsListed()
    ensures IsListing(InOrder<Application>(Leaf), [])
  {
  }

  ghost predicate DistinctKeys(s: seq<Application>) {
    forall a, b | a in s && b in s && Compare(a, b) == 0 :: a == b
  }

  /** The order of the tree, as a comparison for the results about sorted sequences. */
  function Before(): (Application, Application) -> int {
    (a, b) => if Compare(a, b) < 0 then 1 else -1
  }

  lemma BeforeRanks()
    ensures MergeSort.IsRanking(Before())
  {
    forall a, b, c
      ensures Compare(a, a) == 0
      ensures Compare(a, b) < 0 && Compare(b, c) < 0 ==> Compare(a, c) < 0
      ensures Compare(a, b) >= 0 && Compare(b, c) >= 0 ==> Compare(a, c) >= 0
    {
      CompareSwap(a, a);
      CompareSwap(a, b);
      CompareSwap(b, c);
      CompareSwap(a, c);
      if Compare(a, b) < 0 && Compare(b, c) < 0 { CompareStrict(a, b, c); }
      if Compare(a, b) >= 0 && Compare(b, c) >= 0 { CompareTransitive(c, b, a); }
    }
  }

  lemma CompareStrict(a: Application, b: Application, c: Application)
    requires Compare(a, b) < 0 && Compare(b, c) < 0
    ensures Compare(a, c) < 0
  {
    StrncmpTransitive(a.name, b.name, c.name, MAX_APPLICATION_NAME);
  }

  lemma SortedBefore(s: seq<Application>)
    requires Sorted(s)
    ensures MergeSort.Sorted(Before(), s)
  {
    forall i, j | 0 <= i < j < |s| ensures !MergeSort.Above(Before(), s[j], s[i]) {
      CompareSwap(s[i], s[j]);
    }
  }

  lemma ToldApartBefore(s: seq<Application>)
    requires DistinctKeys(s)
    ensures MergeSort.ToldApart(Before(), s)
  {
    forall a, b | a in s && b in s && a != b
      ensures MergeSort.Above(Before(), a, b) || MergeSort.Above(Before(), b, a)
    {
      CompareSwap(a, b);
    }
  }

  /** When no two different applications have the same name and architecture, the order of insertion does
      not matter. */
  lemma OrderDoesNotMatter(s: seq<Application>, t: seq<Application>)
    requires multiset(s) == multiset(t) && DistinctKeys(s)
    ensures InOrder(TreeOf(s)) == InOrder(TreeOf(t))
  {
    hide Compare, InOrder, TreeOf;
    var a, b := InOrder(TreeOf(s)), InOrder(TreeOf(t));
    TraversalIsListing(s);
    TraversalIsListing(t);
    BeforeRanks();
    SortedBefore(a);
    SortedBefore(b);
    ToldApartBefore(s);
    MergeSort.ToldApartPermute(Before(), s, a);
    MergeSort.SortedUnique(Before(), a, b);
  }

  // ---------- the code

  /** Hangs t below root, and returns root, or t when there is none. */
  method TreeInsert(root: TreeNode?<Application>, t: TreeNode<Application>) returns (r: TreeNode<Application>)
    requires WellFormed(root) && t.Alone()
    requires t !in ReprOf(root)
    modifies ReprOf(root)
    ensures r.Valid() && r.shape == Insert(old(ShapeOf(root)), t.value)
    ensures r == (if root == null then t else root) && r.repr <= old(ReprOf(root)) + {t}
    decreases ReprOf(root), 1
  {
    if root == null { return t; }
    r := root;
    assert root.left != null ==> root.left.Valid();
    var comp := Compare(t.value, root.value);
    if comp < 0 || (comp == 0 && root.left == null) {
      InsertLeft(root, t);
    } else {
      InsertRight(root, t);
    }
  }

  method InsertLeft(root: TreeNode<Application>, t: TreeNode<Application>)
    requires root.Valid() && t.Alone() && t !in root.repr
    modifies root.repr
    ensures root.Valid() && root.repr <= old(root.repr) + {t}
    ensures root.shape == Node(Insert(old(root.shape.left), t.value), root.value, old(root.shape.right))
    decreases root.repr, 0
  {
    assert WellFormed(root.right) && ReprOf(root.right) !! ReprOf(root.left);
    if root.left == null {
      root.SetLeft(t);
    } else {
      var left := TreeInsert(root.left, t);
      root.SetLeft(left);
    }
  }

  method InsertRight(root: TreeNode<Application>, t: TreeNode<Application>)
    requires root.Valid() && t.Alone() && t !in root.repr
    modifies root.repr
    ensures root.Valid() && root.repr <= old(root.repr) + {t}
    ensures root.shape == Node(old(root.shape.left), root.value, Insert(old(root.shape.right), t.value))
    decreases root.repr, 0
  {
    assert WellFormed(root.left) && ReprOf(root.left) !! ReprOf(root.right);
    if root.right == null {
      root.SetRight(t);
    } else {
      var right := TreeInsert(root.right, t);
      root.SetRight(right);
    }
  }

  function Pretty(a: Application): string {
    a.name + "\t" + a.version + "\t" + a.publisher + "\t" +
    (match a.architecture case X86_32 => "x86-32" case X86_64 => "x64")
  }

  /** The four columns of a row are read back at its tabs. */
  lemma PrettyReads(a: Application)
    requires '\t' !in a.name && '\t' !in a.version && '\t' !in a.publisher
    ensures var row := Pretty(a);
            var behind := RestOf(RestOf(row, '\t'), '\t');
            && FieldOf(row, '\t') == a.name && FieldOf(RestOf(row, '\t'), '\t') == a.version
            && FieldOf(behind, '\t') == a.publisher
            && RestOf(behind, '\t') == if a.architecture == X86_32 then "x86-32" else "x64"
  {
    hide FieldOf, RestOf;
    var arch := if a.architecture == X86_32 then "x86-32" else "x64";
    var third := a.publisher + "\t" + arch;
    var second := a.version + "\t" + third;
    assert Pretty(a) == a.name + "\t" + second;
    FieldReads(a.name, '\t', second);
    FieldReads(a.version, '\t', third);
    FieldReads(a.publisher, '\t', arch);
  }

  function Texts(apps: seq<Application>): seq<string> {
    seq(|apps|, i requires 0 <= i < |apps| => "\n" + Pretty(apps[i]))
  }

  lemma TextsOfNode(l: Tree<Application>, v: Application, r: Tree<Application>)
    ensures Texts(InOrder(Node(l, v, r))) == Texts(InOrder(l)) + ["\n" + Pretty(v)] + Texts(InOrder(r))
    ensures Texts(InOrder(Leaf)) == []
  {
    hide Pretty;
    InOrderNode(l, v, r);
  }

  method TreeTraverseAppend(t: TreeNode<Application>, out: Output)
    requires t.Valid()
    modifies out
    ensures out.texts == old(out.texts) + Texts(InOrder(t.shape))
    decreases t.repr
  {
    hide Texts, InOrder, Pretty;
    TextsOfNode(ShapeOf(t.left), t.value, ShapeOf(t.right));
    if t.left != null { TreeTraverseAppend(t.left, out); }
    out.Append("\n" + Pretty(t.value));
    if t.right != null { TreeTraverseAppend(t.right, out); }
  }

  lemma OneMore(before: seq<Application>, apps: seq<Application>, i: nat)
    requires i < |apps|
    ensures before + apps[..i] + [apps[i]] == before + apps[..i + 1]
  {
  }

  /** Inserts the applications registered for one architecture. */
  method InsertApplications(root: TreeNode?<Application>, apps: seq<Application>, ghost before: seq<Application>)
    returns (root': TreeNode?<Application>)
    requires WellFormed(root) && ShapeOf(root) == TreeOf(before)
    modifies ReprOf(root)
    ensures WellFormed(root') && ShapeOf(root') == TreeOf(before + apps)
    ensures fresh(ReprOf(root') - old(ReprOf(root)))
  {
    hide Insert, TreeOf;
    root' := root;
    assert before + apps[..0] == before;
    var i := 0;
    while i < |apps|
      invariant i <= |apps| && WellFormed(root') && ShapeOf(root') == TreeOf(before + apps[..i])
      invariant fresh(ReprOf(root') - old(ReprOf(root)))
    {
      var app := new TreeNode(apps[i]);
      root' := TreeInsert(root', app);
      TreeOfNext(before + apps[..i], apps[i]);
      OneMore(before, apps, i);
      i := i + 1;
    }
    assert apps[..i] == apps;
  }

  lemma TreeOfEmpty(apps: seq<Application>)
    ensures TreeOf(apps) == Leaf <==> apps == []
  {
  }

  /** The section of the client log: both architectures in one tree. */
  method PrintApplications(out: Output, apps32: seq<Application>, apps64: seq<Application>)
    returns (ghost listed: seq<Application>)
    modifies out
    ensures listed == InOrder(TreeOf(apps32 + apps64))
    ensures InListOrder(listed) && multiset(listed) == multiset(apps32) + multiset(apps64)
    ensures out.texts == old(out.texts) + ["[applications]"] +
                           if listed == [] then ["\n(No applications found)"] else Texts(listed)
  {
    hide TreeOf, Texts, InOrder, Pretty, InListOrder, Sorted;
    TreeOfEmpty([]);
    var root: TreeNode?<Application> := null;
    root := InsertApplications(root, apps32, []);
    assert [] + apps32 == apps32;
    root := InsertApplications(root, apps64, apps32);
    TreeOfEmpty(apps32 + apps64);
    TraversalIsListing(apps32 + apps64);
    listed := InOrder(TreeOf(apps32 + apps64));
    assert listed == [] <==> apps32 + apps64 == [] by { assert |multiset(listed)| == |multiset(apps32 + apps64)|; }
    out.Append("[applications]");
    if root != null {
      assert root.Valid();
      TreeTraverseAppend(root, out);
    } else {
      out.Append("\n(No applications found)");
    }
  }
}
