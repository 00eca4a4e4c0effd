/** The splay tree of sys/tree.h: SPLAY, SPLAY_MINMAX, SPLAY_FIND, SPLAY_INSERT, SPLAY_REMOVE and SPLAY_NEXT. */
module Splay {
  import opened SplayShape

  ghost function Snap(xs: set<Node>): Links
    reads xs`left, xs`right
  {
    map x: Node | x in xs :: Entry(x.left, x.right)
  }

  lemma NodesAllocated(s: Shape)
    ensures forall n <- Nodes(s) :: allocated(n)
  {
    if s.Bin? {
      NodesAllocated(s.l);
      NodesAllocated(s.r);
    }
  }

  class SplayTree {
    var root: Node?
    ghost var shape: Shape

    ghost predicate Valid()
      reads this, Nodes(shape)`left, Nodes(shape)`right
    {
      root == Root(shape) && Rep(Snap(Nodes(shape)), shape) && Bst(shape)
    }

    constructor ()
      ensures Valid() && shape == Nil
    {
      root, shape := null, Nil;
    }

    // ---------- The steps of a splay ----------

    /** The tree has been taken apart into a, s and b, with s at the root and h the header node. */
    ghost predicate Open(xs: set<Node>, h: Node, a: Lefts, s: Shape, b: Rights)
      reads this`root, xs`left, xs`right
    {
      && root == Root(s) && State(Snap(xs), h, a, s, b)
      && xs == {h} + LeftNodes(a) + Nodes(s) + RightNodes(b)
    }

    method RotateRight(tmp: Node, ghost xs: set<Node>, ghost h: Node, ghost a: Lefts, ghost s: Shape, ghost b: Rights)
      requires Open(xs, h, a, s, b) && s.Bin? && s.l.Bin? && s.l.n == tmp
      modifies this`root, xs`left, xs`right
      ensures Open(xs, h, a, Bin(s.l.l, tmp, Bin(s.l.r, s.n, s.r)), b)
    {
      ghost var m, x := Snap(xs), s.n;
      root.left := tmp.right;
      tmp.right := root;
      root := tmp;
      assert Snap(xs) == SetRight(SetLeft(m, x, m[tmp].right), tmp, x);
      RotateRightTree(m, s.l.l, tmp, s.l.r, x, s.r);
      RotateStep(m, Snap(xs), h, a, s, Bin(s.l.l, tmp, Bin(s.l.r, x, s.r)), b);
    }

    method RotateLeft(tmp: Node, ghost xs: set<Node>, ghost h: Node, ghost a: Lefts, ghost s: Shape, ghost b: Rights)
      requires Open(xs, h, a, s, b) && s.Bin? && s.r.Bin? && s.r.n == tmp
      modifies this`root, xs`left, xs`right
      ensures Open(xs, h, a, Bin(Bin(s.l, s.n, s.r.l), tmp, s.r.r), b)
    {
      ghost var m, x := Snap(xs), s.n;
      root.right := tmp.left;
      tmp.left := root;
      root := tmp;
      assert Snap(xs) == SetLeft(SetRight(m, x, m[tmp].left), tmp, x);
      RotateLeftTree(m, s.l, x, s.r.l, tmp, s.r.r);
      RotateStep(m, Snap(xs), h, a, s, Bin(Bin(s.l, x, s.r.l), tmp, s.r.r), b);
    }

    method LinkLeft(right: Node, ghost xs: set<Node>, ghost h: Node, ghost a: Lefts, ghost s: Shape, ghost b: Rights)
      returns (tmp: Node)
      requires Open(xs, h, a, s, b) && s.Bin? && right == LastRight(h, b)
      modifies this`root, xs`left
      ensures Open(xs, h, a, s.l, Right(b, s.n, s.r)) && tmp == s.n
    {
      ghost var m := Snap(xs);
      LinkLeftStep(m, h, a, s.l, s.n, s.r, b);
      tmp := right;
      tmp.left := root;
      tmp := root;
      root := root.left;
      assert Snap(xs) == SetLeft(m, right, tmp);
    }

    method LinkRight(left: Node, ghost xs: set<Node>, ghost h: Node, ghost a: Lefts, ghost s: Shape, ghost b: Rights)
      returns (tmp: Node)
      requires Open(xs, h, a, s, b) && s.Bin? && left == LastLeft(h, a)
      modifies this`root, xs`right
      ensures Open(xs, h, Left(a, s.l, s.n), s.r, b) && tmp == s.n
    {
      ghost var m := Snap(xs);
      LinkRightStep(m, h, a, s.l, s.n, s.r, b);
      tmp := left;
      tmp.right := root;
      tmp := root;
      root := root.right;
      assert Snap(xs) == SetRight(m, left, tmp);
    }

    /** The subtrees of the root close the left part and the right part. */
    method CloseParts(left: Node, right: Node, ghost xs: set<Node>)
      requires root != null && root in xs && left in xs && right in xs && root !in {left, right}
      modifies xs`left, xs`right
      ensures var m, r: Node := old(Snap(xs)), root;
              Snap(xs) == SetLeft(SetRight(m, left, m[r].left), right, m[r].right)
    {
      left.right := root.left;
      right.left := root.right;
    }

    lemma RootApart(xs: set<Node>, h: Node, a: Lefts, s: Shape, b: Rights)
      requires Open(xs, h, a, s, b) && s.Bin?
      ensures s.n in xs && s.n != h && s.n !in {LastLeft(h, a), LastRight(h, b)}
      ensures LastLeft(h, a) in xs && LastRight(h, b) in xs && h in xs
      ensures LeftNodes(a) + Nodes(s) + RightNodes(b) == xs - {h}
    {
    }

    method Assemble(node: Node, left: Node, right: Node, ghost xs: set<Node>, ghost a: Lefts, ghost s: Shape,
        ghost b: Rights)
      requires Open(xs, node, a, s, b) && s.Bin? && left == LastLeft(node, a) && right == LastRight(node, b)
      modifies xs`left, xs`right
      ensures root == s.n && Rep(Snap(xs), Assembly(a, s, b))
    {
      hide Bst, InOrder, Assembly, State, LastLeft, LastRight, Rep;
      RootApart(xs, node, a, s, b);
      AssembleStep(Snap(xs), node, a, s.l, s.n, s.r, b);
      CloseParts(left, right, xs);
      LinkRoot(node, xs);
    }

    /** The left part is below the header's right link and the right part below its left link. */
    method LinkRoot(node: Node, ghost xs: set<Node>)
      requires root != null && root in xs && node in xs && root != node
      modifies xs`left, xs`right
      ensures var m, r: Node := old(Snap(xs)), root; Snap(xs) == SetRight(SetLeft(m, r, m[node].right), r, m[node].left)
    {
      root.left := node.right;
      root.right := node.left;
    }

    // ---------- SPLAY ----------

    /** Everything a splay for k keeps: the parts are drawn, ordered, and list the nodes in the sequence q. */
    ghost predicate Splaying(k: int, q: seq<Node>, xs: set<Node>, h: Node, left: Node, right: Node, a: Lefts,
        s: Shape, b: Rights)
      reads this`root, xs`left, xs`right
    {
      && Open(xs, h, a, s, b) && Ordered(k, a, s, b) && Order(a, s, b) == q
      && s.Bin? && left == LastLeft(h, a) && right == LastRight(h, b)
    }

    /** The rest of one round to the left, after tmp, the left child of the root, was found and compared. */
    method LeftRound(tmp: Node, zig: bool, right: Node, ghost k: int, ghost q: seq<Node>, ghost xs: set<Node>,
        ghost h: Node, ghost left: Node, ghost a: Lefts, ghost s: Shape, ghost b: Rights)
      returns (stop: bool, right': Node, ghost s': Shape, ghost b': Rights)
      requires Splaying(k, q, xs, h, left, right, a, s, b) && s.l.Bin? && s.l.n == tmp
      requires k < s.n.key && (zig ==> k < tmp.key)
      modifies this`root, xs`left, xs`right
      ensures Splaying(k, q, xs, h, left, right', a, s', b')
      ensures stop ==> k < s'.n.key && s'.l.Nil?
      ensures !stop ==> |InOrder(s')| < |InOrder(s)|
    {
      hide State, Ordered, Order, InOrder, Bst, LastLeft, LastRight;
      stop, right', s', b' := false, right, s, b;
      if zig {
        RotatedOrdered(k, a, s.l.l, tmp, s.l.r, s.n, s.r, b);
        RotateRight(tmp, xs, h, a, s', b);
        s' := Bin(s.l.l, tmp, Bin(s.l.r, s.n, s.r));
        RootFacts(k, q, xs, h, left, right, a, s', b);
        if root.left == null {
          return true, right', s', b';
        }
      }
      LinkLeftOrdered(k, a, s'.l, s'.n, s'.r, b);
      LinkOrder(a, s'.l, s'.n, s'.r, b);
      Shorter(s'.l, s'.n, s'.r);
      LastLinked(h, a, b, s'.n, s'.l, s'.r);
      right' := LinkLeft(right, xs, h, a, s', b);
      s', b' := s'.l, Right(b, s'.n, s'.r);
    }

    method RightRound(tmp: Node, zig: bool, left: Node, ghost k: int, ghost q: seq<Node>, ghost xs: set<Node>,
        ghost h: Node, ghost right: Node, ghost a: Lefts, ghost s: Shape, ghost b: Rights)
      returns (stop: bool, left': Node, ghost a': Lefts, ghost s': Shape)
      requires Splaying(k, q, xs, h, left, right, a, s, b) && s.r.Bin? && s.r.n == tmp
      requires s.n.key < k && (zig ==> tmp.key < k)
      modifies this`root, xs`left, xs`right
      ensures Splaying(k, q, xs, h, left', right, a', s', b)
      ensures stop ==> s'.n.key < k && s'.r.Nil?
      ensures !stop ==> |InOrder(s')| < |InOrder(s)|
    {
      hide State, Ordered, Order, InOrder, Bst, LastLeft, LastRight;
      stop, left', a', s' := false, left, a, s;
      if zig {
        RotatedOrdered(k, a, s.l, s.n, s.r.l, tmp, s.r.r, b);
        RotateLeft(tmp, xs, h, a, s', b);
        s' := Bin(Bin(s.l, s.n, s.r.l), tmp, s.r.r);
        RootFacts(k, q, xs, h, left, right, a, s', b);
        if root.right == null {
          return true, left', a', s';
        }
      }
      LinkRightOrdered(k, a, s'.l, s'.n, s'.r, b);
      LinkOrder(a, s'.l, s'.n, s'.r, b);
      Shorter(s'.l, s'.n, s'.r);
      LastLinked(h, a, b, s'.n, s'.l, s'.r);
      left' := LinkRight(left, xs, h, a, s', b);
      a', s' := Left(a, s'.l, s'.n), s'.r;
    }

    lemma LastLinked(h: Node, a: Lefts, b: Rights, x: Node, l: Shape, r: Shape)
      ensures LastRight(h, Right(b, x, r)) == x && LastLeft(h, Left(a, l, x)) == x
    {
    }

    /** The links at the root of the middle part. */
    lemma RootFacts(k: int, q: seq<Node>, xs: set<Node>, h: Node, left: Node, right: Node, a: Lefts, s: Shape,
        b: Rights)
      requires Splaying(k, q, xs, h, left, right, a, s, b)
      ensures root == s.n && s.n in xs && root.left == Root(s.l) && root.right == Root(s.r)
      ensures s.l.Bin? ==> s.l.n in xs
      ensures s.r.Bin? ==> s.r.n in xs
    {
    }

    method Begin() returns (node: Node, ghost xs: set<Node>)
      requires Valid() && shape.Bin?
      ensures fresh(node) && xs == Nodes(shape) + {node} && node !in Nodes(shape)
      ensures Open(xs, node, NoLeft, shape, NoRight)
    {
      NodesAllocated(shape);
      ghost var m := Snap(Nodes(shape));
      node := new Node(0);
      xs := Nodes(shape) + {node};
      assert SameOn(m, Snap(xs), Nodes(shape));
      RepFrame(m, Snap(xs), shape);
      BstOnce(shape);
    }

    method Splay(elm: Node)
      requires Valid() && shape.Bin?
      modifies this, Nodes(shape)`left, Nodes(shape)`right
      ensures Valid() && Separates(elm.key, shape)
      ensures InOrder(shape) == old(InOrder(shape)) && Nodes(shape) == old(Nodes(shape))
    {
      ghost var k, q := elm.key, InOrder(shape);
      ghost var a, s, b := NoLeft, shape, NoRight;
      var node, left, right, stop;
      ghost var xs;
      node, xs := Begin();
      left, right, stop := node, node, false;
      assert Order(a, s, b) == q;
      RootFacts(k, q, xs, node, left, right, a, s, b);
      while !stop && elm.key != root.key
        invariant Splaying(k, q, xs, node, left, right, a, s, b)
        invariant stop ==> (k < s.n.key && s.l.Nil?) || (s.n.key < k && s.r.Nil?)
        decreases !stop, |InOrder(s)|
      {
        RootFacts(k, q, xs, node, left, right, a, s, b);
        if elm.key < root.key {
          var tmp := root.left;
          if tmp == null {
            stop := true;
          } else {
            stop, right, s, b := LeftRound(tmp, elm.key < tmp.key, right, k, q, xs, node, left, a, s, b);
          }
        } else {
          var tmp := root.right;
          if tmp == null {
            stop := true;
          } else {
            stop, left, a, s := RightRound(tmp, tmp.key < elm.key, left, k, q, xs, node, right, a, s, b);
          }
        }
      }
      RootFacts(k, q, xs, node, left, right, a, s, b);
      Finish(node, left, right, k, q, xs, a, s, b);
    }

    method Finish(node: Node, left: Node, right: Node, ghost k: int, ghost q: seq<Node>, ghost xs: set<Node>,
                  ghost a: Lefts, ghost s: Shape, ghost b: Rights)
      requires Splaying(k, q, xs, node, left, right, a, s, b)
      modifies this, xs`left, xs`right
      ensures Valid() && InOrder(shape) == q && Nodes(shape) == xs - {node}
      ensures k == s.n.key || (k < s.n.key && s.l.Nil?) || (s.n.key < k && s.r.Nil?) ==> Separates(k, shape)
      ensures shape.Bin?
    {
      hide InOrder, LastLeft, LastRight, Separates, Rep, Ordered, State, Order, Assembly;
      RootApart(xs, node, a, s, b);
      AssemblyOrder(a, s, b);
      AssemblyBst(k, a, s, b);
      if k == s.n.key || (k < s.n.key && s.l.Nil?) || (s.n.key < k && s.r.Nil?) {
        AssemblySides(k, a, s, b);
      }
      Assemble(node, left, right, xs, a, s, b);
      Adopt(xs, Assembly(a, s, b));
    }

    /** The tree is now drawn as s. */
    ghost method Adopt(xs: set<Node>, s: Shape)
      requires root == Root(s) && Rep(Snap(xs), s) && Bst(s) && Nodes(s) <= xs
      modifies this`shape
      ensures Valid() && shape == s
    {
      RepFrame(Snap(xs), Snap(Nodes(s)), s);
      shape := s;
    }

    // ---------- SPLAY_MINMAX ----------

    /** One round towards the smallest (comp < 0) or the largest key; k lies beyond all keys on that side. */
    method MinMaxRound(comp: int, node: Node, left: Node, right: Node, ghost k: int, ghost q: seq<Node>,
        ghost xs: set<Node>, ghost a: Lefts, ghost s: Shape, ghost b: Rights)
      returns (stop: bool, left': Node, right': Node, ghost a': Lefts, ghost s': Shape, ghost b': Rights)
      requires Splaying(k, q, xs, node, left, right, a, s, b) && comp != 0
      requires forall n <- xs - {node} :: if comp < 0 then k < n.key else n.key < k
      modifies this`root, xs`left, xs`right
      ensures Splaying(k, q, xs, node, left', right', a', s', b')
      ensures stop ==> (k < s'.n.key && s'.l.Nil?) || (s'.n.key < k && s'.r.Nil?)
      ensures !stop ==> |InOrder(s')| < |InOrder(s)|
    {
      stop, left', right', a', s', b' := false, left, right, a, s, b;
      RootFacts(k, q, xs, node, left, right, a, s, b);
      if comp < 0 {
        var tmp := root.left;
        if tmp == null {
          stop := true;
        } else {
          stop, right', s', b' := LeftRound(tmp, true, right, k, q, xs, node, left, a, s, b);
        }
      } else {
        var tmp := root.right;
        if tmp == null {
          stop := true;
        } else {
          stop, left', a', s' := RightRound(tmp, true, left, k, q, xs, node, right, a, s, b);
        }
      }
    }

    method SplayMinMax(comp: int)
      requires Valid() && shape.Bin? && comp != 0
      modifies this, Nodes(shape)`left, Nodes(shape)`right
      ensures Valid() && shape.Bin? && (if comp < 0 then shape.l.Nil? else shape.r.Nil?)
      ensures InOrder(shape) == old(InOrder(shape)) && Nodes(shape) == old(Nodes(shape))
    {
      ghost var k, q, ns := if comp < 0 then Under(shape) else Over(shape), InOrder(shape), Nodes(shape);
      ghost var a, s, b := NoLeft, shape, NoRight;
      var node, left, right, stop;
      ghost var xs;
      node, xs := Begin();
      left, right, stop := node, node, false;
      assert Order(a, s, b) == q;
      while !stop
        invariant Splaying(k, q, xs, node, left, right, a, s, b)
        invariant stop ==> (k < s.n.key && s.l.Nil?) || (s.n.key < k && s.r.Nil?)
        decreases !stop, |InOrder(s)|
      {
        stop, left, right, a, s, b := MinMaxRound(comp, node, left, right, k, q, xs, a, s, b);
      }
      Finish(node, left, right, k, q, xs, a, s, b);
      SideEmpty(shape, k, ns, comp);
    }

    lemma SideEmpty(s: Shape, k: int, ns: set<Node>, comp: int)
      requires s.Bin? && Nodes(s) == ns && Separates(k, s)
      requires forall n <- ns :: if comp < 0 then k < n.key else n.key < k
      ensures if comp < 0 then s.l.Nil? else s.r.Nil?
    {
      NoNodes(s.l);
      NoNodes(s.r);
    }

    // ---------- SPLAY_FIND, SPLAY_INSERT, SPLAY_REMOVE, SPLAY_NEXT ----------

    method Find(elm: Node) returns (r: Node?)
      requires Valid()
      modifies this, Nodes(shape)`left, Nodes(shape)`right
      ensures Valid() && InOrder(shape) == old(InOrder(shape)) && Nodes(shape) == old(Nodes(shape))
      ensures r != null ==> r in Nodes(shape) && r.key == elm.key && r == root
      ensures r == null ==> forall n <- Nodes(shape) :: n.key != elm.key
    {
      if root == null {
        return null;
      }
      Splay(elm);
      if elm.key == root.key {
        return root;
      }
      return null;
    }

    /** SPLAY_INSERT after the splay, when elm is smaller than the root. */
    method PlaceSmaller(elm: Node)
      requires Valid() && elm !in Nodes(shape) && Separates(elm.key, shape) && elm.key < shape.n.key
      modifies this, elm`left, elm`right, Nodes(shape)`left, Nodes(shape)`right
      ensures Valid() && Nodes(shape) == old(Nodes(shape)) + {elm} && root == elm
    {
      ghost var m, s := Snap(Nodes(shape)), shape;
      BstOnce(s);
      elm.left := root.left;
      elm.right := root;
      root.left := null;
      root := elm;
      shape := Bin(s.l, elm, Bin(Nil, s.n, s.r));
      InsertSmaller(m, Snap(Nodes(s) + {elm}), s.l, s.n, s.r, elm);
    }

    method PlaceLarger(elm: Node)
      requires Valid() && elm !in Nodes(shape) && Separates(elm.key, shape) && elm.key > shape.n.key
      modifies this, elm`left, elm`right, Nodes(shape)`left, Nodes(shape)`right
      ensures Valid() && Nodes(shape) == old(Nodes(shape)) + {elm} && root == elm
    {
      ghost var m, s := Snap(Nodes(shape)), shape;
      BstOnce(s);
      elm.right := root.right;
      elm.left := root;
      root.right := null;
      root := elm;
      shape := Bin(Bin(s.l, s.n, Nil), elm, s.r);
      InsertLarger(m, Snap(Nodes(s) + {elm}), s.l, s.n, s.r, elm);
    }

    method Insert(elm: Node) returns (r: Node?)
      requires Valid()
      modifies this, elm`left, elm`right, Nodes(shape)`left, Nodes(shape)`right
      ensures Valid()
      ensures r == null <==> forall n <- old(Nodes(shape)) :: n.key != elm.key
      ensures r == null ==> Nodes(shape) == old(Nodes(shape)) + {elm} && root == elm
      ensures r != null ==> r in Nodes(shape) && r.key == elm.key && InOrder(shape) == old(InOrder(shape))
      ensures r != null ==> Nodes(shape) == old(Nodes(shape))
    {
      if root == null {
        elm.left, elm.right := null, null;
        root, shape := elm, Bin(Nil, elm, Nil);
      } else {
        Splay(elm);
        if elm.key < root.key {
          PlaceSmaller(elm);
        } else if elm.key > root.key {
          PlaceLarger(elm);
        } else {
          return root;
        }
      }
      r := null;
    }

    /** SPLAY_REMOVE after the splay has brought the node with the key of elm to the root. */
    method DropRoot(elm: Node)
      requires Valid() && Separates(elm.key, shape) && shape.n.key == elm.key
      modifies this, Nodes(shape)`left, Nodes(shape)`right
      ensures Valid() && Nodes(shape) == old(Nodes(shape)) - {old(shape.n)}
    {
      BstOnce(shape);
      if root.left == null {
        root := root.right;
        RepFrame(Snap(Nodes(shape)), Snap(Nodes(shape.r)), shape.r);
        shape := shape.r;
      } else {
        DropInner(elm);
      }
    }

    /** The left subtree becomes the whole tree; tmp is what was to the right of the root. */
    method TakeSmaller() returns (tmp: Node?)
      requires Valid() && shape.Bin?
      modifies this
      ensures Valid() && shape == old(shape.l) && tmp == Root(old(shape.r))
    {
      ghost var m, s := Snap(Nodes(shape)), shape;
      tmp := root.right;
      root := root.left;
      shape := s.l;
      RepFrame(m, Snap(Nodes(s.l)), s.l);
    }

    method DropInner(elm: Node)
      requires Valid() && shape.Bin? && Separates(elm.key, shape) && shape.n.key == elm.key && shape.l.Bin?
      modifies this, Nodes(shape)`left, Nodes(shape)`right
      ensures Valid() && Nodes(shape) == old(Nodes(shape.l)) + old(Nodes(shape.r))
    {
      hide Bst, Rep, Separates, InOrder;
      ghost var m, s := Snap(Nodes(shape)), shape;
      NodesAllocated(s);
      var tmp := TakeSmaller();
      Parts(m, s);
      Splay(elm);
      NothingLarger(s, shape, elm.key);
      HangBack(tmp, m, s);
    }

    /** The old right subtree returns below the largest of the smaller keys. */
    method HangBack(tmp: Node?, ghost m: Links, ghost s: Shape)
      requires Valid() && shape.Bin? && shape.r.Nil? && Bst(s) && s.Bin? && Nodes(shape) == Nodes(s.l)
      requires Rep(m, s.r) && tmp == Root(s.r) && SameOn(m, Snap(Nodes(s)), Nodes(s.r))
      modifies this`shape, root`right
      ensures Valid() && Nodes(shape) == Nodes(s.l) + Nodes(s.r)
    {
      ghost var m1, xs, t := Snap(Nodes(shape)), Nodes(s.l) + Nodes(s.r), shape;
      BstOnce(t);
      BelowDisjoint(Nodes(s.l), Nodes(s.r));
      root.right := tmp;
      RepFrame(m, Snap(xs), s.r);
      HangRight(m1, Snap(xs), t.l, t.n, s.r);
      shape := Bin(t.l, t.n, s.r);
      assert Nodes(shape) == xs;
    }

    method Remove(elm: Node) returns (r: Node?)
      requires Valid()
      modifies this, Nodes(shape)`left, Nodes(shape)`right
      ensures Valid()
      ensures r == if exists n <- old(Nodes(shape)) :: n.key == elm.key then elm else null
      ensures Nodes(shape) == set n | n in old(Nodes(shape)) && n.key != elm.key
    {
      if root == null {
        return null;
      }
      Splay(elm);
      if elm.key == root.key {
        DropRoot(elm);
        return elm;
      }
      return null;
    }

    method Next(node: Node) returns (elm: Node?)
      requires Valid() && node in Nodes(shape)
      modifies this, Nodes(shape)`left, Nodes(shape)`right
      ensures Valid() && InOrder(shape) == old(InOrder(shape)) && Nodes(shape) == old(Nodes(shape))
      ensures elm == null ==> forall n <- Nodes(shape) :: n.key <= node.key
      ensures elm != null ==> elm in Nodes(shape) && node.key < elm.key
      ensures elm != null ==> forall n <- Nodes(shape) :: node.key < n.key ==> elm.key <= n.key
    {
      Splay(node);
      assert root == node;
      if node.right != null {
        elm := node.right;
        ghost var t := shape.r;
        while elm.left != null
          invariant Rep(Snap(Nodes(shape)), t) && Bst(t) && t.Bin? && t.n == elm && Nodes(t) <= Nodes(shape.r)
          invariant forall n <- Nodes(shape.r) - Nodes(t) :: elm.key < n.key
          decreases t
        {
          elm := elm.left;
          t := t.l;
        }
      } else {
        elm := null;
      }
    }
  }

  lemma NoNodes(s: Shape)
    ensures s.Bin? ==> s.n in Nodes(s)
  {
  }

  lemma Parts(m: Links, s: Shape)
    requires s.Bin? && Rep(m, s) && Bst(s)
    ensures Rep(m, s.r) && Nodes(s.l) !! Nodes(s.r) && s.n !in Nodes(s.r) && Nodes(s) == Nodes(s.l) + {s.n} + Nodes(s.r)
  {
    BelowDisjoint(Nodes(s.l), Nodes(s.r));
    BelowDisjoint({s.n}, Nodes(s.r));
  }

  /** After a splay for the largest key, the root of the smaller keys has nothing on its right. */
  lemma NothingLarger(s: Shape, t: Shape, k: int)
    requires Bst(s) && s.Bin? && s.n.key == k && Nodes(t) == Nodes(s.l) && t.Bin? && Separates(k, t)
    ensures t.r.Nil?
  {
    NoNodes(t.r);
    assert Nodes(t.r) <= Nodes(t);
  }
}
