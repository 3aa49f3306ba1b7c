/** The binary search trees of the client log: nodes that point at their children, and the shape they
    form. */
module SearchTree {

  datatype Tree<+T> = Leaf | Node(left: Tree<T>, value: T, right: Tree<T>)

  /** What a traversal visits, in order. */
  function InOrder<T>(t: Tree<T>): seq<T> {
    match t
    case Leaf => []
    case Node(l, v, r) => InOrder(l) + [v] + InOrder(r)
  }

  lemma InOrderNode<T>(l: Tree<T>, v: T, r: Tree<T>)
    ensures InOrder(Node(l, v, r)) == InOrder(l) + [v] + InOrder(r)
    ensures InOrder<T>(Leaf) == []
  {
  }

  /** `after` is `before` with v put in at position k. */
  predicate SplicedAt<T(==)>(before: seq<T>, v: T, k: nat, after: seq<T>) {
    k <= |before| && after == before[..k] + [v] + before[k..]
  }

  /** Putting v into the left subtree at k puts it into the whole traversal at k. */
  lemma SpliceLeft<T>(l: seq<T>, l': seq<T>, x: T, r: seq<T>, v: T, k: nat)
    requires SplicedAt(l, v, k, l')
    ensures SplicedAt(l + [x] + r, v, k, l' + [x] + r)
  {
    var s := l + [x] + r;
    assert s[..k] == l[..k] && s[k..] == l[k..] + [x] + r;
  }

  lemma SpliceRight<T>(l: seq<T>, x: T, r: seq<T>, r': seq<T>, v: T, k: nat)
    requires SplicedAt(r, v, k, r')
    ensures SplicedAt(l + [x] + r, v, |l| + 1 + k, l + [x] + r')
  {
    var s := l + [x] + r;
    assert s[..|l| + 1 + k] == l + [x] + r[..k] && s[|l| + 1 + k..] == r[k..];
  }

  lemma SpliceAdds<T>(before: seq<T>, v: T, k: nat, after: seq<T>)
    requires SplicedAt(before, v, k, after)
    ensures multiset(after) == multiset(before) + multiset{v}
    ensures forall x :: x in after <==> x == v || x in before
  {
    assert before == before[..k] + before[k..];
  }

  ghost function ShapeOf<T>(n: TreeNode?<T>): Tree<T>
    reads n
  {
    if n == null then Leaf else n.shape
  }

  ghost function ReprOf<T>(n: TreeNode?<T>): set<TreeNode<T>>
    reads n
  {
    if n == null then {} else n.repr
  }

  /** No node is reached twice, and the nodes form the shape. */
  ghost predicate WellFormed<T>(n: TreeNode?<T>)
    reads n, ReprOf(n)
  {
    n != null ==> n.Valid()
  }

  class TreeNode<T> {
    const value: T
    var left: TreeNode?<T>
    var right: TreeNode?<T>
    ghost var repr: set<TreeNode<T>>
    ghost var shape: Tree<T>

    ghost predicate Valid()
      reads this, repr
      decreases repr
    {
      && this in repr
      && (left != null ==> left in repr && left.repr <= repr && this !in left.repr && left.Valid())
      && (right != null ==> right in repr && right.repr <= repr && this !in right.repr && right.Valid())
      && ReprOf(left) !! ReprOf(right)
      && shape == Node(ShapeOf(left), value, ShapeOf(right))
    }

    /** The node has not been hung into a tree. */
    ghost predicate Alone()
      reads this, repr
    {
      Valid() && left == right == null && repr == {this}
    }

    /** A node of zeroed memory, with its value filled in. */
    constructor (value: T)
      ensures this.value == value && Alone()
    {
      this.value := value;
      left, right, repr, shape := null, null, {this}, Node(Leaf, value, Leaf);
    }

    method SetLeft(child: TreeNode<T>)
      requires child.Valid() && WellFormed(right) && this in repr && ReprOf(right) <= repr
      requires this !in child.repr && this !in ReprOf(right) && child.repr !! ReprOf(right)
      modifies this`left, this`repr, this`shape
      ensures Valid() && repr == old(repr) + child.repr
      ensures shape == Node(child.shape, value, ShapeOf(right))
    {
      left := child;
      repr := repr + left.repr;
      shape := Node(left.shape, value, ShapeOf(right));
    }

    method SetRight(child: TreeNode<T>)
      requires child.Valid() && WellFormed(left) && this in repr && ReprOf(left) <= repr
      requires this !in child.repr && this !in ReprOf(left) && child.repr !! ReprOf(left)
      modifies this`right, this`repr, this`shape
      ensures Valid() && repr == old(repr) + child.repr
      ensures shape == Node(ShapeOf(left), value, child.shape)
    {
      right := child;
      repr := repr + right.repr;
      shape := Node(ShapeOf(left), value, right.shape);
    }
  }

  /** The texts appended to an arena, in order. */
  class Output {
    var texts: seq<string>

    constructor ()
      ensures texts == []
    {
      texts := [];
    }

    method Append(text: string)
      modifies this
      ensures texts == old(texts) + [text]
    {
      texts := texts + [text];
    }
  }
}
