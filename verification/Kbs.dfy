/** The set of installed updates of clientlog/kbs.c, as a binary search tree of their numbers. */
module Kbs {
  import opened SearchTree

  /** Where a number goes; one that is there already is ignored. */
  function Insert(t: Tree<nat>, kb: nat): Tree<nat> {
    match t
    case Leaf => Node(Leaf, kb, Leaf)
    case Node(l, v, r) =>
      if kb < v then Node(Insert(l, kb), v, r)
      else if kb > v then Node(l, v, Insert(r, kb))
      else t
  }

  function TreeOf(kbs: seq<nat>): Tree<nat> {
    if kbs == [] then Leaf else Insert(TreeOf(kbs[..|kbs| - 1]), kbs[|kbs| - 1])
  }

  predicate Increasing(s: seq<nat>) {
    forall i, j | 0 <= i < j < |s| :: s[i] < s[j]
  }

  predicate Between(s: seq<nat>, x: nat, k: nat) {
    k <= |s| && (k > 0 ==> s[k - 1] < x) && (k < |s| ==> x < s[k])
  }

  /** A number that is not ignored is put between a smaller and a larger neighbour. */
  lemma {:induction false} InsertSplices(t: Tree<nat>, kb: nat) returns (k: nat)
    ensures || (Insert(t, kb) == t && kb in InOrder(t))
            || (SplicedAt(InOrder(t), kb, k, InOrder(Insert(t, kb))) && Between(InOrder(t), kb, k))
  {
    k := 0;
    match t {
      case Leaf =>
      case Node(l, v, r) =>
        if kb < v {
          k := InsertSplices(l, kb);
          if Insert(l, kb) != l { SpliceLeft(InOrder(l), InOrder(Insert(l, kb)), v, InOrder(r), kb, k); }
        } else if kb > v {
          k := InsertSplices(r, kb);
          if Insert(r, kb) != r { SpliceRight(InOrder(l), v, InOrder(r), InOrder(Insert(r, kb)), kb, k); }
          k := |InOrder(l)| + 1 + k;
        }
    }
  }

  lemma SpliceIncreases(s: seq<nat>, x: nat, k: nat, s': seq<nat>)
    requires Increasing(s) && Between(s, x, k) && SplicedAt(s, x, k, s')
    ensures Increasing(s')
  {
    assert forall i | 0 <= i < |s'| :: s'[i] == if i < k then s[i] else if i == k then x else s[i - 1];
  }

  /** After any insertions the traversal is strictly increasing and holds exactly the inserted numbers. */
  lemma {:induction false} TraversalIsTheSet(kbs: seq<nat>)
    ensures Increasing(InOrder(TreeOf(kbs)))
    ensures forall x :: x in InOrder(TreeOf(kbs)) <==> x in kbs
  {
    if kbs != [] {
      var front, kb := kbs[..|kbs| - 1], kbs[|kbs| - 1];
      TraversalIsTheSet(front);
      var before, after := InOrder(TreeOf(front)), InOrder(TreeOf(kbs));
      var k := InsertSplices(TreeOf(front), kb);
      assert kbs == front + [kb];
      if SplicedAt(before, kb, k, after) && Between(before, kb, k) {
        SpliceAdds(before, kb, k, after);
        SpliceIncreases(before, kb, k, after);
      }
    }
  }

  /** Only the set of numbers matters: neither their order nor how often each was inserted. */
  lemma OrderDoesNotMatter(a: seq<nat>, b: seq<nat>)
    requires SameElements(a, b)
    ensures InOrder(TreeOf(a)) == InOrder(TreeOf(b))
  {
    TraversalIsTheSet(a);
    TraversalIsTheSet(b);
    assert SameElements(InOrder(TreeOf(a)), InOrder(TreeOf(b)));
    IncreasingUnique(InOrder(TreeOf(a)), InOrder(TreeOf(b)));
  }

  predicate SameElements(s: seq<nat>, t: seq<nat>) {
    (forall x | x in s :: x in t) && (forall x | x in t :: x in s)
  }

  lemma {:induction false} IncreasingUnique(s: seq<nat>, t: seq<nat>)
    requires Increasing(s) && Increasing(t) && SameElements(s, t)
    ensures s == t
  {
    assert (s != [] ==> s[0] in t) && (t != [] ==> t[0] in s);
    if s != [] && t != [] {
      DropLargest(s, t);
      IncreasingUnique(s[..|s| - 1], t[..|t| - 1]);
      assert s == s[..|s| - 1] + [s[|s| - 1]] && t == t[..|t| - 1] + [t[|t| - 1]];
    }
  }

  lemma DropLargest(s: seq<nat>, t: seq<nat>)
    requires Increasing(s) && Increasing(t) && SameElements(s, t) && s != [] && t != []
    ensures s[|s| - 1] == t[|t| - 1] && SameElements(s[..|s| - 1], t[..|t| - 1])
  {
    LastIsLargest(s);
    LastIsLargest(t);
    var a, b := s[..|s| - 1], t[..|t| - 1];
    assert s[|s| - 1] in t && t[|t| - 1] in s;
    forall x | x in a ensures x in b { assert x in s && x in t; }
    forall x | x in b ensures x in a { assert x in t && x in s; }
  }

  lemma LastIsLargest(s: seq<nat>)
    requires Increasing(s) && s != []
    ensures forall x | x in s :: x <= s[|s| - 1]
    ensures forall x :: x in s[..|s| - 1] <==> x in s && x != s[|s| - 1]
  {
    assert s == s[..|s| - 1] + [s[|s| - 1]];
  }

  // ---------- the code

  /** Writes the node through the pointer where the search for its value ends. The new root is returned,
      where the source is given the address of the old one. */
  method InsertKB(root: TreeNode?<nat>, node: TreeNode<nat>) returns (root': TreeNode<nat>)
    requires WellFormed(root) && node.Alone()
    requires node !in ReprOf(root)
    modifies ReprOf(root)
    ensures root'.Valid() && root'.shape == Insert(old(ShapeOf(root)), node.value)
    ensures root' == if root == null then node else root
    ensures root'.repr <= old(ReprOf(root)) + {node}
    decreases ReprOf(root)
  {
    if root == null { return node; }
    root' := root;
    if node.value < root.value {
      assert WellFormed(root.right) && ReprOf(root.right) !! ReprOf(root.left);
      var left := InsertKB(root.left, node);
      root.SetLeft(left);
    } else if node.value > root.value {
      assert WellFormed(root.left) && ReprOf(root.left) !! ReprOf(root.right);
      var right := InsertKB(root.right, node);
      root.SetRight(right);
    }
  }

  function Texts(kbs: seq<nat>, pretty: nat -> string): seq<string> {
    seq(|kbs|, i requires 0 <= i < |kbs| => "\nKB" + pretty(kbs[i]))
  }

  method AppendKBs(out: Output, root: TreeNode<nat>, pretty: nat -> string)
    requires root.Valid()
    modifies out
    ensures out.texts == old(out.texts) + Texts(InOrder(root.shape), pretty)
    decreases root.repr
  {
    if root.left != null { AppendKBs(out, root.left, pretty); }
    out.Append("\nKB" + pretty(root.value));
    if root.right != null { AppendKBs(out, root.right, pretty); }
  }

  function NonZero(found: seq<nat>): seq<nat> {
    if found == [] then []
    else
      NonZero(found[..|found| - 1]) + (if found[|found| - 1] != 0 then [found[|found| - 1]] else [])
  }

  lemma {:induction false} NonZeroIs(found: seq<nat>)
    ensures forall kb :: kb in NonZero(found) <==> kb in found && kb != 0
  {
    if found != [] {
      NonZeroIs(found[..|found| - 1]);
      assert found == found[..|found| - 1] + [found[|found| - 1]];
    }
  }

  lemma ListedEmpty(kbs: seq<nat>)
    ensures InOrder(TreeOf(kbs)) == [] <==> kbs == []
  {
    hide TreeOf, InOrder;
    TraversalIsTheSet(kbs);
    TreeOfEmpty(kbs);
    InOrderEmpty(TreeOf(kbs));
  }

  lemma InOrderEmpty(t: Tree<nat>)
    ensures InOrder(t) == [] <==> t == Leaf
  {
  }

  /** Inserts every number found. A title without a number gives 0 and is skipped. */
  method CollectKBs(found: seq<nat>) returns (root: TreeNode?<nat>)
    ensures WellFormed(root) && fresh(ReprOf(root)) && ShapeOf(root) == TreeOf(NonZero(found))
  {
    hide Insert, TreeOf, TreeNode.Valid;
    TreeOfEmpty(NonZero(found[..0]));
    root := null;
    var i := 0;
    while i < |found|
      invariant i <= |found|
      invariant WellFormed(root) && fresh(ReprOf(root)) && ShapeOf(root) == TreeOf(NonZero(found[..i]))
    {
      NonZeroNext(found, i);
      if found[i] != 0 {
        var node := new TreeNode(found[i]);
        root := InsertKB(root, node);
      }
      i := i + 1;
    }
    assert found[..i] == found;
  }

  lemma NonZeroNext(found: seq<nat>, i: nat)
    requires i < |found|
    ensures TreeOf(NonZero(found[..i + 1])) ==
            if found[i] == 0 then TreeOf(NonZero(found[..i])) else Insert(TreeOf(NonZero(found[..i])), found[i])
  {
    var kbs := NonZero(found[..i]);
    assert found[..i + 1][..i] == found[..i] && kbs + [] == kbs;
    assert (kbs + [found[i]])[..|kbs|] == kbs;
  }

  lemma TreeOfEmpty(kbs: seq<nat>)
    ensures TreeOf(kbs) == Leaf <==> kbs == []
  {
  }

  /** The section of the client log: whether COM could be initialised, and the numbers read from the titles of the
      updates (none when a call before the loop over them failed). */
  method PrintKBs(out: Output, com: bool, found: seq<nat>, pretty: nat -> string)
    returns (ghost listed: seq<nat>)
    modifies out
    ensures Increasing(listed) && forall kb :: kb in listed <==> kb in found && kb != 0
    ensures out.texts == old(out.texts) + ["[kbs]"] +
                           if !com then ["(Unable to initialize COM)"]
                           else if listed == [] then ["(No KBs found)"]
                           else Texts(listed, pretty)
  {
    hide TreeOf, InOrder, Increasing, Texts;
    listed := InOrder(TreeOf(NonZero(found)));
    TraversalIsTheSet(NonZero(found));
    NonZeroIs(found);
    out.Append("[kbs]");
    if !com {
      out.Append("(Unable to initialize COM)");
      return;
    }
    var root := CollectKBs(found);
    TreeOfEmpty(NonZero(found));
    ListedEmpty(NonZero(found));
    if root != null {
      AppendKBs(out, root, pretty);
    } else {
      out.Append("(No KBs found)");
    }
  }
}
