/** The red-black tree of section descriptors: RB_HEAD, RB_INSERT, RB_REMOVE, the lookups and the traversals of
    sys/tree.h, instantiated as elf_scn.c instantiates them (RB_GENERATE of scntree with elfscn_cmp). */
module RbTree {
  import opened Section
  import opened RbShape
  import opened RbBalance
  import opened RbLinks

  ghost function Snap(xs: set<Scn>): Links
    reads xs`left, xs`right, xs`parent, xs`red
  {
    map x: Scn | x in xs :: Entry(x.left, x.right, x.parent, x.red)
  }

  /** elfscn_cmp. */
  function ScnCmp(s1: Scn, s2: Scn): int {
    if s1.ndx < s2.ndx then -1 else if s1.ndx > s2.ndx then 1 else 0
  }

  class ScnTree {
    var root: Scn?
    ghost var shape: Shape

    /** Within xs, the tree is drawn exactly as s. */
    ghost predicate Holds(xs: set<Scn>, s: Shape)
      reads this`root, xs`left, xs`right, xs`parent, xs`red
    {
      root == Root(s) && Nodes(s) <= xs && Rep(Snap(xs), s, null) && Bst(s)
    }

    ghost predicate Valid()
      reads this`root, this`shape, Nodes(shape)`left, Nodes(shape)`right, Nodes(shape)`parent, Nodes(shape)`red
    {
      Holds(Nodes(shape), shape) && RedBlack(shape)
    }

    constructor ()
      ensures Valid() && shape == Nil
    {
      root, shape := null, Nil;
    }

    lemma HoldsFrame(xs: set<Scn>, ys: set<Scn>, s: Shape)
      requires Holds(xs, s) && Nodes(s) <= ys
      ensures Holds(ys, s)
    {
      RepFrame(Snap(xs), Snap(ys), s, null);
    }

    // ---------- RB_ROTATE_LEFT, RB_ROTATE_RIGHT, RB_COLOR ----------

    ghost predicate Closed(xs: set<Scn>, x: Scn)
      reads x
    {
      && x in xs
      && (x.left == null || x.left in xs)
      && (x.right == null || x.right in xs)
      && (x.parent == null || x.parent in xs)
    }

    method RotateLeftLinks(elm: Scn, ghost xs: set<Scn>)
      requires Closed(xs, elm) && elm.right != null && Closed(xs, elm.right) && elm.right.parent == elm
      requires elm.right.left == null || elm.right.left !in {elm, elm.right, elm.parent}
      requires elm.parent !in {elm, elm.right}
      modifies this`root, xs`left, xs`right, xs`parent
      ensures root == if old(elm.parent) == null then old(elm.right) else old(root)
      ensures forall z <- xs ::
        z.left == if z == old(elm.right) then elm
                  else if z == old(elm.parent) && old(z.left) == elm then old(elm.right) else old(z.left)
      ensures forall z <- xs ::
        z.right == if z == elm then old(elm.right.left)
                   else if z == old(elm.parent) && old(z.left) != elm then old(elm.right) else old(z.right)
      ensures elm.parent == old(elm.right) && old(elm.right).parent == old(elm.parent)
      ensures forall z <- xs - {elm, old(elm.right)} ::
        z.parent == if z == old(elm.right.left) then elm else old(z.parent)
    {
      var tmp := elm.right;
      elm.right := tmp.left;
      if tmp.left != null {
        tmp.left.parent := elm;
      }
      tmp.parent := elm.parent;
      if elm.parent != null {
        if elm == elm.parent.left {
          elm.parent.left := tmp;
        } else {
          elm.parent.right := tmp;
        }
      } else {
        root := tmp;
      }
      tmp.left := elm;
      elm.parent := tmp;
    }

    method TurnLeft(elm: Scn, ghost xs: set<Scn>)
      requires Closed(xs, elm) && elm.right != null && Closed(xs, elm.right) && elm.right.parent == elm
      requires elm.right.left == null || elm.right.left !in {elm, elm.right, elm.parent}
      requires elm.parent !in {elm, elm.right}
      modifies this`root, xs`left, xs`right, xs`parent
      ensures root == if old(elm.parent) == null then old(elm.right) else old(root)
      ensures Snap(xs) == LeftLinks(old(Snap(xs)), elm, old(elm.right))
    {
      RotateLeftLinks(elm, xs);
    }

    method TurnRight(elm: Scn, ghost xs: set<Scn>)
      requires Closed(xs, elm) && elm.left != null && Closed(xs, elm.left) && elm.left.parent == elm
      requires elm.left.right == null || elm.left.right !in {elm, elm.left, elm.parent}
      requires elm.parent !in {elm, elm.left}
      modifies this`root, xs`left, xs`right, xs`parent
      ensures root == if old(elm.parent) == null then old(elm.left) else old(root)
      ensures Snap(xs) == RightLinks(old(Snap(xs)), elm, old(elm.left))
    {
      RotateRightLinks(elm, xs);
    }

    /** The rotation seen on shapes: t, the subtree at elm, is rotated in place below c. */
    method RotateLeft(elm: Scn, ghost xs: set<Scn>, ghost c: Path, ghost t: Shape)
      requires t.Bin? && t.n == elm && t.r.Bin? && Holds(xs, Plug(c, t))
      modifies this`root, xs`left, xs`right, xs`parent
      ensures Holds(xs, Plug(c, Bin(Bin(t.l, elm, t.red, t.r.l), t.r.n, t.r.red, t.r.r)))
      ensures InOrder(Plug(c, Bin(Bin(t.l, elm, t.red, t.r.l), t.r.n, t.r.red, t.r.r))) == InOrder(Plug(c, t))
    {
      hide Rep, Bst, InOrder, Nodes, LeftLinks;
      ghost var m := Snap(xs);
      ghost var t' := Bin(Bin(t.l, elm, t.red, t.r.l), t.r.n, t.r.red, t.r.r);
      RotateFacts(xs, c, t, t.r.n, t.r.l);
      TurnLeft(elm, xs);
      LeftLinksRep(m, c, t.l, elm, t.red, t.r.l, t.r.n, t.r.red, t.r.r);
      RotatedInOrder(t.l, elm, t.red, t.r.l, t.r.n, t.r.red, t.r.r);
      PlugSame(c, t, t');
      PlugRoot(c, t, t');
    }

    method RotateRightLinks(elm: Scn, ghost xs: set<Scn>)
      requires Closed(xs, elm) && elm.left != null && Closed(xs, elm.left) && elm.left.parent == elm
      requires elm.left.right == null || elm.left.right !in {elm, elm.left, elm.parent}
      requires elm.parent !in {elm, elm.left}
      modifies this`root, xs`left, xs`right, xs`parent
      ensures root == if old(elm.parent) == null then old(elm.left) else old(root)
      ensures forall z <- xs ::
        z.left == if z == elm then old(elm.left.right)
                  else if z == old(elm.parent) && old(z.left) == elm then old(elm.left) else old(z.left)
      ensures forall z <- xs ::
        z.right == if z == old(elm.left) then elm
                   else if z == old(elm.parent) && old(z.left) != elm then old(elm.left) else old(z.right)
      ensures elm.parent == old(elm.left) && old(elm.left).parent == old(elm.parent)
      ensures forall z <- xs - {elm, old(elm.left)} ::
        z.parent == if z == old(elm.left.right) then elm else old(z.parent)
    {
      var tmp := elm.left;
      elm.left := tmp.right;
      if tmp.right != null {
        tmp.right.parent := elm;
      }
      tmp.parent := elm.parent;
      if elm.parent != null {
        if elm == elm.parent.left {
          elm.parent.left := tmp;
        } else {
          elm.parent.right := tmp;
        }
      } else {
        root := tmp;
      }
      tmp.right := elm;
      elm.parent := tmp;
    }

    /** The rotation seen on shapes: t, the subtree at elm, is rotated in place below c. */
    method RotateRight(elm: Scn, ghost xs: set<Scn>, ghost c: Path, ghost t: Shape)
      requires t.Bin? && t.n == elm && t.l.Bin? && Holds(xs, Plug(c, t))
      modifies this`root, xs`left, xs`right, xs`parent
      ensures Holds(xs, Plug(c, Bin(t.l.l, t.l.n, t.l.red, Bin(t.l.r, elm, t.red, t.r))))
      ensures InOrder(Plug(c, Bin(t.l.l, t.l.n, t.l.red, Bin(t.l.r, elm, t.red, t.r)))) == InOrder(Plug(c, t))
    {
      hide Rep, Bst, InOrder, Nodes, RightLinks;
      ghost var m := Snap(xs);
      ghost var t' := Bin(t.l.l, t.l.n, t.l.red, Bin(t.l.r, elm, t.red, t.r));
      RotateFacts(xs, c, t, t.l.n, t.l.r);
      TurnRight(elm, xs);
      RightLinksRep(m, c, t.l.l, t.l.n, t.l.red, t.l.r, elm, t.red, t.r);
      RotatedInOrder(t.l.l, t.l.n, t.l.red, t.l.r, elm, t.red, t.r);
      PlugSame(c, t, t');
      PlugRoot(c, t, t');
    }

    lemma RotateFacts(xs: set<Scn>, c: Path, t: Shape, y: Scn, b: Shape)
      requires t.Bin? && Holds(xs, Plug(c, t))
      requires (t.r.Bin? && y == t.r.n && b == t.r.l) || (t.l.Bin? && y == t.l.n && b == t.l.r)
      ensures Closed(xs, t.n) && Closed(xs, y) && y.parent == t.n
      ensures t.n.left == Root(t.l) && t.n.right == Root(t.r) && t.n.parent == Above(c)
      ensures t.r.Bin? && y == t.r.n ==> y.left == Root(b)
      ensures t.l.Bin? && y == t.l.n ==> y.right == Root(b)
      ensures Root(b) == null || Root(b) !in {t.n, y, Above(c)}
      ensures Above(c) !in {t.n, y}
    {
      PlugRep(Snap(xs), c, t);
      PlugBst(c, t);
      PlugNodes(c, t);
    }

    method Paint(elm: Scn, red: bool, ghost xs: set<Scn>, ghost c: Path, ghost t: Shape)
      requires t.Bin? && t.n == elm && Holds(xs, Plug(c, t)) && elm in xs
      modifies elm`red
      ensures Holds(xs, Plug(c, t.(red := red)))
      ensures InOrder(Plug(c, t.(red := red))) == InOrder(Plug(c, t))
    {
      ghost var m := Snap(xs);
      PaintRep(m, c, t, red);
      elm.red := red;
      assert Snap(xs) == m[elm := m[elm].(red := red)];
      PlugSame(c, t, t.(red := red));
      PlugRoot(c, t, t.(red := red));
    }

    /** The links around a focus: its root, the parent of the hole and the sibling subtree. */
    lemma PathFacts(xs: set<Scn>, c: Path, f: Shape)
      requires Holds(xs, Plug(c, f))
      ensures Bst(f) && Nodes(f) <= xs
      ensures f.Bin? ==> Drawn(xs, f) && f.n.parent == Above(c)
      ensures c.Top? ==> root == Root(f)
      ensures !c.Top? ==> Drawn(xs, Up(c, f)) && c.n.parent == Above(c.up) && (f.Bin? ==> f.n != Root(c.sib))
      ensures !c.Top? && c.sib.Bin? ==> Drawn(xs, c.sib)
    {
      PlugRep(Snap(xs), c, f);
      PlugBst(c, f);
      PlugNodes(c, f);
    }

    ghost predicate Drawn(xs: set<Scn>, f: Shape)
      requires f.Bin?
      reads f.n
    {
      f.n in xs && f.n.left == Root(f.l) && f.n.right == Root(f.r) && f.n.red == f.red
    }

    // ---------- RB_INSERT_COLOR ----------

    /** One round of the repair when the parent of node is a left child. */
    method InsertFixLeft(node: Scn, ghost xs: set<Scn>, ghost path: Path, ghost sub: Shape)
      returns (elm: Scn, ghost c: Path, ghost f: Shape)
      requires Holds(xs, Plug(path, sub)) && RedDefect(path, sub) && sub.n == node
      requires !path.Top? && path.red && path.up.InL?
      modifies this`root, xs`left, xs`right, xs`parent, xs`red
      ensures Holds(xs, Plug(c, f)) && RedDefect(c, f) && f.n == elm && Depth(c) < Depth(path)
      ensures InOrder(Plug(c, f)) == InOrder(Plug(path, sub))
    {
      elm, c, f := node, path, sub;
      DefectHasGrandparent(c, f);
      PathFacts(xs, c, f);
      PathFacts(xs, c.up, Up(c, f));
      var parent := elm.parent;
      var gparent := parent.parent;
      ghost var up, unc := c.up.up, c.up.sib;
      assert c.up == InL(up, gparent, false, unc);
      var tmp := gparent.right;
      if tmp != null && tmp.red {
        RecolourStep(c, f);
        Paint(tmp, false, xs, InR(up, gparent, false, Up(c, f)), unc);
        Paint(parent, false, xs, InL(up, gparent, false, Blackened(unc)), Up(c, f));
        f := Up(InL(up, gparent, false, Blackened(unc)), Blackened(Up(c, f)));
        Paint(gparent, true, xs, up, f);
        elm, c, f := gparent, up, f.(red := true);
      } else {
        if parent.right == elm {
          InnerStep(c, f);
          RotateLeft(parent, xs, c.up, Up(c, f));
          c, f := InL(c.up, elm, true, f.r), Bin(c.sib, parent, true, f.l);
          elm, parent := parent, elm;
        }
        OuterStep(c, f);
        Paint(parent, false, xs, c.up, Up(c, f));
        Paint(gparent, true, xs, up, Bin(Bin(f, parent, false, c.sib), gparent, false, unc));
        RotateRight(gparent, xs, up, Bin(Bin(f, parent, false, c.sib), gparent, true, unc));
        c := InL(up, parent, false, Bin(c.sib, gparent, true, unc));
      }
    }

    /** One round of the repair when the parent of node is a right child. */
    method InsertFixRight(node: Scn, ghost xs: set<Scn>, ghost path: Path, ghost sub: Shape)
      returns (elm: Scn, ghost c: Path, ghost f: Shape)
      requires Holds(xs, Plug(path, sub)) && RedDefect(path, sub) && sub.n == node
      requires !path.Top? && path.red && path.up.InR?
      modifies this`root, xs`right, xs`left, xs`parent, xs`red
      ensures Holds(xs, Plug(c, f)) && RedDefect(c, f) && f.n == elm && Depth(c) < Depth(path)
      ensures InOrder(Plug(c, f)) == InOrder(Plug(path, sub))
    {
      elm, c, f := node, path, sub;
      DefectHasGrandparent(c, f);
      PathFacts(xs, c, f);
      PathFacts(xs, c.up, Up(c, f));
      var parent := elm.parent;
      var gparent := parent.parent;
      ghost var up, unc := c.up.up, c.up.sib;
      assert c.up == InR(up, gparent, false, unc);
      var tmp := gparent.left;
      if tmp != null && tmp.red {
        RecolourStep(c, f);
        Paint(tmp, false, xs, InL(up, gparent, false, Up(c, f)), unc);
        Paint(parent, false, xs, InR(up, gparent, false, Blackened(unc)), Up(c, f));
        f := Up(InR(up, gparent, false, Blackened(unc)), Blackened(Up(c, f)));
        Paint(gparent, true, xs, up, f);
        elm, c, f := gparent, up, f.(red := true);
      } else {
        if parent.left == elm {
          InnerStep(c, f);
          RotateRight(parent, xs, c.up, Up(c, f));
          c, f := InR(c.up, elm, true, f.l), Bin(f.r, parent, true, c.sib);
          elm, parent := parent, elm;
        }
        OuterStep(c, f);
        Paint(parent, false, xs, c.up, Up(c, f));
        Paint(gparent, true, xs, up, Bin(unc, gparent, false, Bin(c.sib, parent, false, f)));
        RotateLeft(gparent, xs, up, Bin(unc, gparent, true, Bin(c.sib, parent, false, f)));
        c := InR(up, parent, false, Bin(unc, gparent, true, c.sib));
      }
    }

    /** The repair after the red node elm, the root of f below c, was linked in. */
    method InsertColor(node: Scn, ghost xs: set<Scn>, ghost path: Path, ghost sub: Shape) returns (ghost s: Shape)
      requires Holds(xs, Plug(path, sub)) && RedDefect(path, sub) && sub.n == node
      modifies this`root, xs`left, xs`right, xs`parent, xs`red
      ensures Holds(xs, s) && RedBlack(s) && InOrder(s) == InOrder(Plug(path, sub))
    {
      var elm := node;
      ghost var c, f := path, sub;
      while elm.parent != null && elm.parent.red
        invariant Holds(xs, Plug(c, f)) && RedDefect(c, f) && f.n == elm
        invariant InOrder(Plug(c, f)) == InOrder(Plug(path, sub))
        decreases Depth(c)
      {
        PathFacts(xs, c, f);
        DefectHasGrandparent(c, f);
        PathFacts(xs, c.up, Up(c, f));
        var gparent := elm.parent.parent;
        if elm.parent == gparent.left {
          elm, c, f := InsertFixLeft(elm, xs, c, f);
        } else {
          elm, c, f := InsertFixRight(elm, xs, c, f);
        }
      }
      PathFacts(xs, c, f);
      DefectGone(c, f);
      PlugRoot(c, f, f);
      s := BlackenRoot(xs, Plug(c, f));
    }

    /** RB_COLOR(root) = RB_BLACK. */
    method BlackenRoot(ghost xs: set<Scn>, ghost t: Shape) returns (ghost s: Shape)
      requires Holds(xs, t) && t.Bin?
      modifies this`root, xs`red
      ensures s == Blackened(t) && Holds(xs, s) && InOrder(s) == InOrder(t)
    {
      PathFacts(xs, Top, t);
      Paint(root, false, xs, Top, t);
      s := Blackened(t);
    }

    // ---------- RB_REMOVE_COLOR ----------

    /** The termination measure of the repair after a removal. */
    function Effort(c: Path, f: Shape): nat {
      2 * Depth(c) + if IsRed(f) then 0 else 1
    }

    lemma NephewFacts(xs: set<Scn>, c: Path, f: Shape)
      requires Holds(xs, Plug(c, f)) && f.Bin?
      ensures f.l.Bin? ==> f.l.n in xs && f.l.n.red == f.l.red
      ensures f.r.Bin? ==> f.r.n in xs && f.r.n.red == f.r.red
    {
      PathFacts(xs, InL(c, f.n, f.red, f.r), f.l);
      PathFacts(xs, InR(c, f.n, f.red, f.l), f.r);
    }

    /** Red sibling on the right: rotate it above the parent. */
    method LiftSiblingLeft(parent: Scn, sibling: Scn, ghost xs: set<Scn>, ghost c: Path, ghost f: Shape)
      returns (tmp: Scn, ghost c': Path)
      requires Holds(xs, Plug(c, f)) && BlackDefect(c, f) && !IsRed(f)
      requires c.InL? && c.n == parent && IsRed(c.sib) && c.sib.n == sibling
      modifies this`root, xs`left, xs`right, xs`parent, xs`red
      ensures Holds(xs, Plug(c', f)) && BlackDefect(c', f) && c'.InL? && c'.n == parent && c'.red
      ensures !IsRed(c'.sib) && c'.sib.Bin? && c'.sib.n == tmp && Depth(c') == Depth(c) + 1
      ensures InOrder(Plug(c', f)) == InOrder(Plug(c, f))
    {
      PathFacts(xs, c, f);
      RedSiblingStep(c, f);
      tmp := sibling;
      ghost var sib, sib' := c.sib, c.sib.(red := false);
      Paint(tmp, false, xs, InR(c.up, parent, false, f), sib);
      Paint(parent, true, xs, c.up, Up(InL(c.up, parent, false, sib'), f));
      RotateLeft(parent, xs, c.up, Up(InL(c.up, parent, true, sib'), f));
      c' := InL(InL(c.up, sib.n, false, sib.r), parent, true, sib.l);
      PathFacts(xs, c', f);
      tmp := parent.right;
    }

    /** Only the inner nephew is red: rotate it above the sibling. */
    method StraightenLeft(parent: Scn, sibling: Scn, ghost xs: set<Scn>, ghost c: Path, ghost f: Shape)
      returns (tmp: Scn, ghost c': Path)
      requires Holds(xs, Plug(c, f)) && BlackDefect(c, f) && !IsRed(f)
      requires c.InL? && c.n == parent && c.sib.Bin? && !IsRed(c.sib) && c.sib.n == sibling
      requires IsRed(c.sib.l) && !IsRed(c.sib.r)
      modifies this`root, xs`left, xs`right, xs`parent, xs`red
      ensures Holds(xs, Plug(c', f)) && BlackDefect(c', f) && c'.InL? && c'.n == parent && c'.up == c.up
      ensures !IsRed(c'.sib) && c'.sib.Bin? && c'.sib.n == tmp && IsRed(c'.sib.r)
      ensures InOrder(Plug(c', f)) == InOrder(Plug(c, f))
    {
      PathFacts(xs, c, f);
      InnerNephewStep(c, f);
      tmp := sibling;
      ghost var sib, at := c.sib, InR(c.up, parent, c.red, f);
      PathFacts(xs, InL(at, tmp, false, sib.r), sib.l);
      var oleft := tmp.left;
      if oleft != null {
        Paint(oleft, false, xs, InL(at, tmp, false, sib.r), sib.l);
      }
      sib := sib.(l := sib.l.(red := false));
      Paint(tmp, true, xs, at, sib);
      sib := sib.(red := true);
      RotateRight(tmp, xs, at, sib);
      sib := Up(InL(Top, sib.l.n, false, Up(InL(Top, tmp, true, sib.r), sib.l.r)), sib.l.l);
      c' := InL(c.up, parent, c.red, sib);
      PathFacts(xs, c', f);
      tmp := parent.right;
    }

    /** The outer nephew is red: rotate the parent and finish. */
    method RotateParentLeft(parent: Scn, tmp: Scn, ghost xs: set<Scn>, ghost c: Path, ghost f: Shape)
      returns (ghost s: Shape)
      requires Holds(xs, Plug(c, f)) && BlackDefect(c, f) && !IsRed(f)
      requires c.InL? && c.n == parent && c.sib.Bin? && !IsRed(c.sib) && c.sib.n == tmp && IsRed(c.sib.r)
      modifies this`root, xs`left, xs`right, xs`parent, xs`red
      ensures Holds(xs, s) && RedBlack(s) && s.Bin? && InOrder(s) == InOrder(Plug(c, f))
    {
      PathFacts(xs, c, f);
      OuterNephewStep(c, f);
      ghost var sib := c.sib;
      Paint(tmp, parent.red, xs, InR(c.up, parent, c.red, f), sib);
      sib := sib.(red := c.red);
      Paint(parent, false, xs, c.up, Up(InL(c.up, parent, c.red, sib), f));
      PathFacts(xs, InR(InR(c.up, parent, false, f), tmp, c.red, sib.l), sib.r);
      if tmp.right != null {
        Paint(tmp.right, false, xs, InR(InR(c.up, parent, false, f), tmp, c.red, sib.l), sib.r);
      }
      sib := sib.(r := sib.r.(red := false));
      RotateLeft(parent, xs, c.up, Up(InL(c.up, parent, false, sib), f));
      s := Plug(c.up, Up(InL(Top, tmp, c.red, sib.r), Up(InL(Top, parent, false, sib.l), f)));
      PlugRoot(c.up, Up(InL(Top, tmp, c.red, sib.r), Up(InL(Top, parent, false, sib.l), f)), Nil);
    }

    /** One round of the repair when elm is a left child. */
    method RemoveFixLeft(above: Scn, node: Scn?, ghost xs: set<Scn>, ghost path: Path, ghost sub: Shape)
      returns (parent: Scn?, elm: Scn?, ghost c: Path, ghost f: Shape)
      requires Holds(xs, Plug(path, sub)) && BlackDefect(path, sub) && !IsRed(sub)
      requires path.InL? && path.n == above && Root(sub) == node
      modifies this`root, xs`left, xs`right, xs`parent, xs`red
      ensures Holds(xs, Plug(c, f)) && BlackDefect(c, f) && Root(f) == elm
      ensures !c.Top? ==> parent == c.n
      ensures Effort(c, f) < Effort(path, sub) && InOrder(Plug(c, f)) == InOrder(Plug(path, sub))
    {
      parent, elm, c, f := above, node, path, sub;
      SiblingExists(c, f);
      PathFacts(xs, c, f);
      var tmp := parent.right;
      if tmp.red {
        tmp, c := LiftSiblingLeft(parent, tmp, xs, c, f);
      }
      PathFacts(xs, InR(c.up, parent, c.red, f), c.sib);
      NephewFacts(xs, InR(c.up, parent, c.red, f), c.sib);
      if (tmp.left == null || !tmp.left.red) && (tmp.right == null || !tmp.right.red) {
        BlackNephewsStep(c, f);
        Paint(tmp, true, xs, InR(c.up, parent, c.red, f), c.sib);
        c, f := c.up, Up(InL(c.up, parent, c.red, c.sib.(red := true)), f);
        PathFacts(xs, c, f);
        elm := parent;
        parent := elm.parent;
      } else {
        if tmp.right == null || !tmp.right.red {
          tmp, c := StraightenLeft(parent, tmp, xs, c, f);
        }
        f := RotateParentLeft(parent, tmp, xs, c, f);
        c := Top;
        elm := root;
      }
    }

    /** Red sibling on the left: rotate it above the parent. */
    method LiftSiblingRight(parent: Scn, sibling: Scn, ghost xs: set<Scn>, ghost c: Path, ghost f: Shape)
      returns (tmp: Scn, ghost c': Path)
      requires Holds(xs, Plug(c, f)) && BlackDefect(c, f) && !IsRed(f)
      requires c.InR? && c.n == parent && IsRed(c.sib) && c.sib.n == sibling
      modifies this`root, xs`right, xs`left, xs`parent, xs`red
      ensures Holds(xs, Plug(c', f)) && BlackDefect(c', f) && c'.InR? && c'.n == parent && c'.red
      ensures !IsRed(c'.sib) && c'.sib.Bin? && c'.sib.n == tmp && Depth(c') == Depth(c) + 1
      ensures InOrder(Plug(c', f)) == InOrder(Plug(c, f))
    {
      PathFacts(xs, c, f);
      RedSiblingStep(c, f);
      tmp := sibling;
      ghost var sib, sib' := c.sib, c.sib.(red := false);
      Paint(tmp, false, xs, InL(c.up, parent, false, f), sib);
      Paint(parent, true, xs, c.up, Up(InR(c.up, parent, false, sib'), f));
      RotateRight(parent, xs, c.up, Up(InR(c.up, parent, true, sib'), f));
      c' := InR(InR(c.up, sib.n, false, sib.l), parent, true, sib.r);
      PathFacts(xs, c', f);
      tmp := parent.left;
    }

    /** Only the inner nephew is red: rotate it above the sibling. */
    method StraightenRight(parent: Scn, sibling: Scn, ghost xs: set<Scn>, ghost c: Path, ghost f: Shape)
      returns (tmp: Scn, ghost c': Path)
      requires Holds(xs, Plug(c, f)) && BlackDefect(c, f) && !IsRed(f)
      requires c.InR? && c.n == parent && c.sib.Bin? && !IsRed(c.sib) && c.sib.n == sibling
      requires IsRed(c.sib.r) && !IsRed(c.sib.l)
      modifies this`root, xs`right, xs`left, xs`parent, xs`red
      ensures Holds(xs, Plug(c', f)) && BlackDefect(c', f) && c'.InR? && c'.n == parent && c'.up == c.up
      ensures !IsRed(c'.sib) && c'.sib.Bin? && c'.sib.n == tmp && IsRed(c'.sib.l)
      ensures InOrder(Plug(c', f)) == InOrder(Plug(c, f))
    {
      PathFacts(xs, c, f);
      InnerNephewStep(c, f);
      tmp := sibling;
      ghost var sib, at := c.sib, InL(c.up, parent, c.red, f);
      PathFacts(xs, InR(at, tmp, false, sib.l), sib.r);
      var oright := tmp.right;
      if oright != null {
        Paint(oright, false, xs, InR(at, tmp, false, sib.l), sib.r);
      }
      sib := sib.(r := sib.r.(red := false));
      Paint(tmp, true, xs, at, sib);
      sib := sib.(red := true);
      RotateLeft(tmp, xs, at, sib);
      sib := Up(InR(Top, sib.r.n, false, Up(InR(Top, tmp, true, sib.l), sib.r.l)), sib.r.r);
      c' := InR(c.up, parent, c.red, sib);
      PathFacts(xs, c', f);
      tmp := parent.left;
    }

    /** The outer nephew is red: rotate the parent and finish. */
    method RotateParentRight(parent: Scn, tmp: Scn, ghost xs: set<Scn>, ghost c: Path, ghost f: Shape)
      returns (ghost s: Shape)
      requires Holds(xs, Plug(c, f)) && BlackDefect(c, f) && !IsRed(f)
      requires c.InR? && c.n == parent && c.sib.Bin? && !IsRed(c.sib) && c.sib.n == tmp && IsRed(c.sib.l)
      modifies this`root, xs`right, xs`left, xs`parent, xs`red
      ensures Holds(xs, s) && RedBlack(s) && s.Bin? && InOrder(s) == InOrder(Plug(c, f))
    {
      PathFacts(xs, c, f);
      OuterNephewStep(c, f);
      ghost var sib := c.sib;
      Paint(tmp, parent.red, xs, InL(c.up, parent, c.red, f), sib);
      sib := sib.(red := c.red);
      Paint(parent, false, xs, c.up, Up(InR(c.up, parent, c.red, sib), f));
      PathFacts(xs, InL(InL(c.up, parent, false, f), tmp, c.red, sib.r), sib.l);
      if tmp.left != null {
        Paint(tmp.left, false, xs, InL(InL(c.up, parent, false, f), tmp, c.red, sib.r), sib.l);
      }
      sib := sib.(l := sib.l.(red := false));
      RotateRight(parent, xs, c.up, Up(InR(c.up, parent, false, sib), f));
      s := Plug(c.up, Up(InR(Top, tmp, c.red, sib.l), Up(InR(Top, parent, false, sib.r), f)));
      PlugRoot(c.up, Up(InR(Top, tmp, c.red, sib.l), Up(InR(Top, parent, false, sib.r), f)), Nil);
    }

    /** One round of the repair when elm is a right child. */
    method RemoveFixRight(above: Scn, node: Scn?, ghost xs: set<Scn>, ghost path: Path, ghost sub: Shape)
      returns (parent: Scn?, elm: Scn?, ghost c: Path, ghost f: Shape)
      requires Holds(xs, Plug(path, sub)) && BlackDefect(path, sub) && !IsRed(sub)
      requires path.InR? && path.n == above && Root(sub) == node
      modifies this`root, xs`right, xs`left, xs`parent, xs`red
      ensures Holds(xs, Plug(c, f)) && BlackDefect(c, f) && Root(f) == elm
      ensures !c.Top? ==> parent == c.n
      ensures Effort(c, f) < Effort(path, sub) && InOrder(Plug(c, f)) == InOrder(Plug(path, sub))
    {
      parent, elm, c, f := above, node, path, sub;
      SiblingExists(c, f);
      PathFacts(xs, c, f);
      var tmp := parent.left;
      if tmp.red {
        tmp, c := LiftSiblingRight(parent, tmp, xs, c, f);
      }
      PathFacts(xs, InL(c.up, parent, c.red, f), c.sib);
      NephewFacts(xs, InL(c.up, parent, c.red, f), c.sib);
      if (tmp.right == null || !tmp.right.red) && (tmp.left == null || !tmp.left.red) {
        BlackNephewsStep(c, f);
        Paint(tmp, true, xs, InL(c.up, parent, c.red, f), c.sib);
        c, f := c.up, Up(InR(c.up, parent, c.red, c.sib.(red := true)), f);
        PathFacts(xs, c, f);
        elm := parent;
        parent := elm.parent;
      } else {
        if tmp.left == null || !tmp.left.red {
          tmp, c := StraightenRight(parent, tmp, xs, c, f);
        }
        f := RotateParentRight(parent, tmp, xs, c, f);
        c := Top;
        elm := root;
      }
    }

    /** The repair after a black node was cut out between above and node, the root of sub. */
    method RemoveColor(above: Scn?, node: Scn?, ghost xs: set<Scn>, ghost path: Path, ghost sub: Shape)
      returns (ghost s: Shape)
      requires Holds(xs, Plug(path, sub)) && BlackDefect(path, sub) && Root(sub) == node
      requires !path.Top? ==> above == path.n
      modifies this`root, xs`left, xs`right, xs`parent, xs`red
      ensures Holds(xs, s) && RedBlack(s) && InOrder(s) == InOrder(Plug(path, sub))
    {
      var parent, elm := above, node;
      ghost var c, f := path, sub;
      PathFacts(xs, c, f);
      RootInPath(c, f);
      while (elm == null || !elm.red) && elm != root
        invariant Holds(xs, Plug(c, f)) && BlackDefect(c, f) && Root(f) == elm
        invariant (!c.Top? ==> parent == c.n) && InOrder(Plug(c, f)) == InOrder(Plug(path, sub))
        decreases Effort(c, f)
      {
        PathFacts(xs, c, f);
        RootInPath(c, f);
        SiblingExists(c, f);
        if parent.left == elm {
          parent, elm, c, f := RemoveFixLeft(parent, elm, xs, c, f);
        } else {
          parent, elm, c, f := RemoveFixRight(parent, elm, xs, c, f);
        }
      }
      PathFacts(xs, c, f);
      PathRoot(xs, c, f);
      BlackDefectGone(c, f);
      if elm != null {
        Paint(elm, false, xs, c, f);
      }
      s := Plug(c, Blackened(f));
    }

    /** The root of the tree is the root of the focus exactly when the path is empty. */
    lemma PathRoot(xs: set<Scn>, c: Path, f: Shape)
      requires Holds(xs, Plug(c, f))
      ensures c.Top? <==> root == Root(f)
    {
      PlugRoot(c, f, f);
      RootInPath(c, f);
      PlugBst(c, f);
    }

    // ---------- RB_INSERT ----------

    /** RB_SET of elm and the link from its parent. */
    method LinkLeaf(elm: Scn, parent: Scn?, comp: int, ghost c: Path)
      requires Valid() && elm !in Nodes(shape) && Plug(c, Nil) == shape && Between(c, elm.ndx) && parent == Above(c)
      requires !c.Top? ==> if c.InL? then comp < 0 else comp > 0
      modifies this`root, elm`left, elm`right, elm`parent, elm`red, Nodes(shape)`left, Nodes(shape)`right
      ensures Holds(Nodes(shape) + {elm}, Plug(c, Bin(Nil, elm, true, Nil)))
    {
      hide Rep, Bst, InOrder, Between, PathNodes;
      ghost var xs := Nodes(shape) + {elm};
      ghost var m := Snap(xs);
      assert Holds(xs, shape) by { HoldsFrame(Nodes(shape), xs, shape); }
      LeafFacts(c, elm);
      elm.parent, elm.left, elm.right, elm.red := parent, null, null, true;
      if parent != null {
        if comp < 0 {
          parent.left := elm;
        } else {
          parent.right := elm;
        }
      } else {
        root := elm;
      }
      LeafRep(m, Snap(xs), c, elm);
    }

    lemma LeafFacts(c: Path, elm: Scn)
      requires Bst(Plug(c, Nil)) && Between(c, elm.ndx) && elm !in Nodes(Plug(c, Nil))
      ensures Above(c) != elm && elm !in PathNodes(c) && (c.Top? || c.n in Nodes(Plug(c, Nil)))
      ensures Bst(Plug(c, Bin(Nil, elm, true, Nil)))
      ensures Nodes(Plug(c, Bin(Nil, elm, true, Nil))) == Nodes(Plug(c, Nil)) + {elm}
      ensures Root(Plug(c, Bin(Nil, elm, true, Nil))) == if c.Top? then elm else Root(Plug(c, Nil))
      ensures PathNodes(c) == Nodes(Plug(c, Nil))
    {
      PlugNodes(c, Nil);
      PlugNodes(c, Bin(Nil, elm, true, Nil));
      LeafBst(c, elm);
      PlugRoot(c, Nil, Bin(Nil, elm, true, Nil));
    }

    /** The part of an insertion that follows an unsuccessful search. */
    method Attach(elm: Scn, parent: Scn?, comp: int, ghost c: Path)
      requires Valid() && elm !in Nodes(shape) && Plug(c, Nil) == shape && Between(c, elm.ndx) && parent == Above(c)
      requires !c.Top? ==> if c.InL? then comp < 0 else comp > 0
      modifies this, elm`left, elm`right, elm`parent, elm`red
      modifies Nodes(shape)`left, Nodes(shape)`right, Nodes(shape)`parent, Nodes(shape)`red
      ensures Valid()
      ensures InOrder(shape) == Inserted(old(InOrder(shape)), elm)
      ensures Nodes(shape) == old(Nodes(shape)) + {elm}
    {
      ghost var xs, leaf := Nodes(shape) + {elm}, Bin(Nil, elm, true, Nil);
      LeafFacts(c, elm);
      LeafBst(c, elm);
      UnplugRb(c, Nil);
      LinkLeaf(elm, parent, comp, c);
      shape := InsertColor(elm, xs, c, leaf);
      assert Nodes(shape) == xs by { InOrderNodes(shape); InOrderNodes(Plug(c, leaf)); }
    }

    method Insert(elm: Scn) returns (r: Scn?)
      requires Valid()
      modifies this, elm`left, elm`right, elm`parent, elm`red
      modifies Nodes(shape)`left, Nodes(shape)`right, Nodes(shape)`parent, Nodes(shape)`red
      ensures Valid()
      ensures r == null <==> forall x <- old(Nodes(shape)) :: x.ndx != elm.ndx
      ensures r == null ==> InOrder(shape) == Inserted(old(InOrder(shape)), elm)
      ensures r == null ==> Nodes(shape) == old(Nodes(shape)) + {elm}
      ensures r != null ==> r in Nodes(shape) && r.ndx == elm.ndx
      ensures r != null ==> unchanged(this) && unchanged(elm) && Snap(Nodes(shape)) == old(Snap(Nodes(shape)))
    {
      ghost var c, t := Top, shape;
      var parent: Scn?, comp := null, 0;
      var tmp := root;
      while tmp != null
        invariant Valid() && Snap(Nodes(shape)) == old(Snap(Nodes(shape)))
        invariant Plug(c, t) == shape && tmp == Root(t) && parent == Above(c) && Between(c, elm.ndx)
        invariant !c.Top? ==> if c.InL? then comp < 0 else comp > 0
        modifies {}
        decreases t
      {
        PathFacts(Nodes(shape), c, t);
        parent := tmp;
        comp := ScnCmp(elm, parent);
        if comp < 0 {
          c, t := InL(c, t.n, t.red, t.r), t.l;
          tmp := tmp.left;
        } else if comp > 0 {
          c, t := InR(c, t.n, t.red, t.l), t.r;
          tmp := tmp.right;
        } else {
          PlugNodes(c, t);
          return tmp;
        }
      }
      assert forall x <- Nodes(shape) :: x.ndx != elm.ndx by {
        BetweenNodes(c, Nil, elm.ndx);
        PathElems(c);
        PlugNodes(c, Nil);
      }
      Attach(elm, parent, comp, c);
      r := null;
    }

    // ---------- RB_REMOVE ----------

    /** The links that RB_REMOVE rewrites last: child takes the place of elm below its parent. */
    method CutLinks(elm: Scn, child: Scn?, ghost xs: set<Scn>) returns (parent: Scn?, color: bool)
      requires elm in xs && (child == null || child in xs) && (elm.parent == null || elm.parent in xs)
      modifies this`root, xs`left, xs`right, xs`parent
      ensures parent == old(elm.parent) && color == elm.red
      ensures root == if parent == null then child else old(root)
      ensures forall z <- xs :: z.left == if z == parent && old(z.left) == elm then child else old(z.left)
      ensures forall z <- xs :: z.right == if z == parent && old(z.left) != elm then child else old(z.right)
      ensures forall z <- xs :: z.parent == if z == child then parent else old(z.parent)
    {
      parent := elm.parent;
      color := elm.red;
      if child != null {
        child.parent := parent;
      }
      if parent != null {
        if parent.left == elm {
          parent.left := child;
        } else {
          parent.right := child;
        }
      } else {
        root := child;
      }
    }

    /** The removal of a node with at most one child, seen on shapes. */
    method CutOut(elm: Scn, child: Scn?, ghost xs: set<Scn>, ghost c: Path, ghost t: Shape)
      returns (parent: Scn?, color: bool)
      requires Holds(xs, Plug(c, t)) && t.Bin? && t.n == elm && (t.l.Nil? || t.r.Nil?) && child == Root(OnlyChild(t))
      modifies this`root, xs`left, xs`right, xs`parent
      ensures Holds(xs, Plug(c, OnlyChild(t))) && parent == Above(c) && color == t.red
      ensures InOrder(Plug(c, OnlyChild(t))) == Removed(InOrder(Plug(c, t)), elm)
    {
      hide Rep, Bst, Removed, InOrder, Nodes, OnlyChild;
      ghost var m := Snap(xs);
      CutFacts(xs, c, t);
      parent, color := CutLinks(elm, child, xs);
      assert Snap(xs) == SpliceLinks(m, elm, child);
      SpliceRep(m, c, t);
      PlugRoot(c, t, OnlyChild(t));
    }

    lemma CutFacts(xs: set<Scn>, c: Path, t: Shape)
      requires Holds(xs, Plug(c, t)) && t.Bin? && (t.l.Nil? || t.r.Nil?)
      ensures t.n in xs && t.n.parent == Above(c) && t.n.red == t.red && (c.Top? || Above(c) in xs)
      ensures OnlyChild(t).Bin? ==> Root(OnlyChild(t)) in xs && Root(OnlyChild(t)) !in {t.n, Above(c)}
      ensures Bst(Plug(c, OnlyChild(t))) && Nodes(Plug(c, OnlyChild(t))) <= Nodes(Plug(c, t))
      ensures InOrder(Plug(c, OnlyChild(t))) == Removed(InOrder(Plug(c, t)), t.n)
    {
      PathFacts(xs, c, t);
      PlugBst(c, t);
      PlugNodes(c, t);
      PlugNodes(c, OnlyChild(t));
      CutOrder(c, t);
    }

    /** y is the successor of x, a node with two children. */
    ghost predicate SuccessorOf(xs: set<Scn>, x: Scn, y: Scn)
      reads x, y, y.parent
    {
      && Closed(xs, x) && Closed(xs, y) && y.left == null
      && x.left != null && x.right != null && y.parent != null
      && Separate(x.parent, x.left, x, x.right, y.parent, y, y.right)
      && (x.right == y <==> y.parent == x) && (y.parent != x ==> y.parent.left == y)
    }

    /** The neighbours of was turn to its successor elm. */
    method TurnNeighbours(was: Scn, elm: Scn, ghost xs: set<Scn>)
      requires SuccessorOf(xs, was, elm)
      modifies this`root, xs`left, xs`right, xs`parent
      ensures root == if old(was.parent) == null then elm else old(root)
      ensures forall z <- xs :: z.left == if z == old(was.parent) && old(z.left) == was then elm else old(z.left)
      ensures forall z <- xs - {was} ::
        z.right == if z == old(was.parent) && old(z.left) != was then elm else old(z.right)
      ensures was.right == if old(was.right) == elm then old(elm.right) else old(was.right)
      ensures forall z <- xs :: z.parent == if z == old(was.left) || z == old(was.right) then elm else old(z.parent)
    {
      if elm == was.right {
        was.right := elm.right;
        elm.parent := elm;
      } else {
        was.right.parent := elm;
      }
      was.left.parent := elm;
      var parent := was.parent;
      if parent != null {
        if parent.left == was {
          parent.left := elm;
        } else {
          parent.right := elm;
        }
      } else {
        root := elm;
      }
    }

    /** RB_REMOVE for a node with two children, up to the repair, on links: the successor elm of was leaves its
        position to its child and takes over the position, the links and the colour of was. */
    method MoveSuccessor(was: Scn, elm: Scn, ghost xs: set<Scn>) returns (parent: Scn?, child: Scn?, color: bool)
      requires SuccessorOf(xs, was, elm)
      modifies this`root, xs`left, xs`right, xs`parent, xs`red
      ensures child == old(elm.right) && color == old(elm.red)
      ensures parent == if old(was.right) == elm then elm else old(elm.parent)
      ensures root == if old(was.parent) == null then elm else old(root)
      ensures elm.left == old(was.left) && elm.parent == old(was.parent) && elm.red == old(was.red)
      ensures elm.right == if old(was.right) == elm then child else old(was.right)
      ensures forall z <- xs - {was, elm} :: z.red == old(z.red)
      ensures forall z <- xs - {was, elm} ::
        z.left == MovedLeft(z, old(elm.parent), child, old(was.parent), was, elm, old(z.left))
      ensures forall z <- xs - {was, elm} ::
        z.right == if z == old(was.parent) && old(z.left) != was then elm else old(z.right)
      ensures forall z <- xs - {was, elm} ::
        z.parent == MovedParent(z, old(was.left), elm, child, old(elm.parent), elm.right, old(z.parent))
    {
      TurnNeighbours(was, elm, xs);
      child := elm.right;
      parent, color := CutLinks(elm, child, xs);
      elm.left, elm.right, elm.parent, elm.red := was.left, was.right, was.parent, was.red;
    }

    function MovedLeft(z: Scn, p: Scn?, child: Scn?, q: Scn?, was: Scn, elm: Scn, left: Scn?): Scn? {
      if z == p then child else if z == q && left == was then elm else left
    }

    function MovedParent(z: Scn, l: Scn?, elm: Scn, child: Scn?, p: Scn?, r: Scn?, parent: Scn?): Scn? {
      if z == l || z == r then elm else if z == child then p else parent
    }

    method TakeOver(was: Scn, elm: Scn, ghost xs: set<Scn>) returns (parent: Scn?, child: Scn?, color: bool)
      requires SuccessorOf(xs, was, elm)
      modifies this`root, xs`left, xs`right, xs`parent, xs`red
      ensures child == old(elm.right) && color == old(elm.red)
      ensures parent == if old(was.right) == elm then elm else old(elm.parent)
      ensures root == if old(was.parent) == null then elm else old(root)
      ensures forall z <- xs - {was} ::
        Snap(xs)[z] == TransplantLinks(SpliceLinks(old(Snap(xs)), elm, child), was, elm)[z]
    {
      hide SpliceLinks, TransplantLinks, Separate;
      ghost var m := Snap(xs);
      parent, child, color := MoveSuccessor(was, elm, xs);
      SameDomain(m, was, elm, child);
      forall z <- xs - {was} ensures Snap(xs)[z] == TransplantLinks(SpliceLinks(m, elm, child), was, elm)[z] {
        TakenOver(m, was, elm, child, z);
      }
    }

    lemma SameDomain(m: Links, x: Scn, y: Scn, k: Scn?)
      requires x in m && y in m
      ensures SpliceLinks(m, y, k).Keys == m.Keys && TransplantLinks(SpliceLinks(m, y, k), x, y).Keys == m.Keys
    {
    }

    /** The links of z after x was replaced by its successor y, whose place went to k. */
    lemma TakenOver(m: Links, x: Scn, y: Scn, k: Scn?, z: Scn)
      requires x in m && y in m && z in m && z != x && m[y].right == k && m[x].left != null && m[y].parent != null
      requires m[x].right != null && Separate(m[x].parent, m[x].left, x, m[x].right, m[y].parent, y, k)
      requires (m[x].right == y <==> m[y].parent == x) && m[y].left == null
      requires m[y].parent != x && m[y].parent in m ==> m[m[y].parent].left == y
      ensures z in TransplantLinks(SpliceLinks(m, y, k), x, y)
      ensures TransplantLinks(SpliceLinks(m, y, k), x, y)[z] ==
              var r := if m[x].right == y then k else m[x].right;
              if z == y then Entry(m[x].left, r, m[x].parent, m[x].red)
              else Entry(MovedLeft(z, m[y].parent, k, m[x].parent, x, y, m[z].left),
                         if z == m[x].parent && m[z].left != x then y else m[z].right,
                         MovedParent(z, m[x].left, y, k, m[y].parent, r, m[z].parent), m[z].red)
    {
    }

    lemma SuccessorFacts(xs: set<Scn>, c: Path, l: Shape, x: Scn, red: bool, d: Path, y: Scn, yred: bool, r: Shape)
      requires Holds(xs, Plug(SuccessorPath(c, x, red, l, d), Bin(Nil, y, yred, r))) && LeftSpine(d)
      requires l.Bin?
      ensures SuccessorOf(xs, x, y)
      ensures x.left == Root(l) && y.right == Root(r) && y.red == yred && x.red == red && x.parent == Above(c)
      ensures y.parent == Above(SuccessorPath(c, x, red, l, d)) && (d.Top? <==> x.right == y)
    {
      SuccessorLinks(xs, c, l, x, red, d, y, yred, r);
      SuccessorSeparate(c, l, x, red, d, y, yred, r);
    }

    lemma SuccessorLinks(xs: set<Scn>, c: Path, l: Shape, x: Scn, red: bool, d: Path, y: Scn, yred: bool, r: Shape)
      requires Holds(xs, Plug(SuccessorPath(c, x, red, l, d), Bin(Nil, y, yred, r))) && LeftSpine(d)
      requires l.Bin?
      ensures x in xs && x.left == Root(l) && x.red == red && x.parent == Above(c) && (c.Top? || c.n in xs)
      ensures y in xs && y.left == null && y.right == Root(r) && y.red == yred
      ensures Root(l) in xs && (r.Bin? ==> Root(r) in xs)
      ensures y.parent == (if d.Top? then x else d.n) && y.parent in xs && (!d.Top? ==> d.n.left == y)
      ensures x.right == Root(Plug(d, Bin(Nil, y, yred, r))) && x.right in xs
      ensures d.Top? <==> x.right == y
    {
      var cc, s := SuccessorPath(c, x, red, l, d), Bin(Nil, y, yred, r);
      var t := Plug(d, s);
      PlugAppend(InR(c, x, red, l), d, s);
      PathFacts(xs, cc, s);
      PathFacts(xs, c, Bin(l, x, red, t));
      PathFacts(xs, InL(c, x, red, t), l);
      PathFacts(xs, InR(c, x, red, l), t);
      RootInPath(d, s);
      PlugRoot(d, s, s);
    }

    /** The leftmost node of the right subtree. */
    method Successor(was: Scn, ghost xs: set<Scn>, ghost c: Path, ghost t: Shape)
      returns (elm: Scn, ghost d: Path, ghost u: Shape)
      requires Holds(xs, Plug(c, t)) && t.Bin? && t.n == was && t.r.Bin?
      ensures Plug(SuccessorPath(c, was, t.red, t.l, d), u) == Plug(c, t)
      ensures LeftSpine(d) && u.Bin? && u.n == elm && u.l.Nil?
    {
      hide Rep, Bst, InOrder, Nodes;
      PathFacts(xs, c, t);
      elm, d, u := was.right, Top, t.r;
      PathFacts(xs, SuccessorPath(c, was, t.red, t.l, d), u);
      var child := elm.left;
      while child != null
        invariant Holds(xs, Plug(c, t)) && Plug(SuccessorPath(c, was, t.red, t.l, d), u) == Plug(c, t)
        invariant LeftSpine(d) && u.Bin? && u.n == elm && child == Root(u.l)
        modifies {}
        decreases u
      {
        elm := child;
        d, u := InL(d, u.n, u.red, u.r), u.l;
        PathFacts(xs, SuccessorPath(c, was, t.red, t.l, d), u);
        child := elm.left;
      }
    }

    /** RB_REMOVE for a node with two children, up to the repair. */
    method RemoveInner(was: Scn, ghost xs: set<Scn>, ghost c: Path, ghost t: Shape)
      returns (parent: Scn?, child: Scn?, color: bool, ghost path: Path, ghost sub: Shape)
      requires Holds(xs, Plug(c, t)) && RedBlack(Plug(c, t)) && t.Bin? && t.n == was && t.l.Bin? && t.r.Bin?
      modifies this`root, xs`left, xs`right, xs`parent, xs`red
      ensures Holds(xs, Plug(path, sub)) && child == Root(sub) && (!path.Top? ==> parent == path.n)
      ensures if color then RedBlack(Plug(path, sub)) else BlackDefect(path, sub)
      ensures InOrder(Plug(path, sub)) == Removed(InOrder(Plug(c, t)), was)
    {
      ghost var d, u;
      var elm;
      elm, d, u := Successor(was, xs, c, t);
      path, sub := SuccessorPath(c, was, t.red, t.l, d), u;
      SuccessorFacts(xs, c, t.l, was, t.red, d, elm, u.red, u.r);
      ghost var m := Snap(xs);
      parent, child, color := TakeOver(was, elm, xs);
      path, sub := SuccessorPath(c, elm, t.red, t.l, d), u.r;
      SuccessorRep(m, Snap(xs), c, t.l, was, t.red, d, elm, u.red, u.r);
      SuccessorBalance(c, t.l, was, t.red, d, elm, u.red, u.r);
      SuccessorShape(c, t.l, was, t.red, d, elm, u.red, u.r);
    }

    /** RB_REMOVE for a node with at most one child, up to the repair. */
    method RemoveOuter(was: Scn, ghost xs: set<Scn>, ghost c: Path, ghost t: Shape)
      returns (parent: Scn?, child: Scn?, color: bool, ghost path: Path, ghost sub: Shape)
      requires Holds(xs, Plug(c, t)) && RedBlack(Plug(c, t)) && t.Bin? && t.n == was && (t.l.Nil? || t.r.Nil?)
      modifies this`root, xs`left, xs`right, xs`parent
      ensures Holds(xs, Plug(path, sub)) && child == Root(sub) && (!path.Top? ==> parent == path.n)
      ensures if color then RedBlack(Plug(path, sub)) else BlackDefect(path, sub)
      ensures InOrder(Plug(path, sub)) == Removed(InOrder(Plug(c, t)), was)
    {
      PathFacts(xs, c, t);
      UnplugRb(c, t);
      CutStep(c, t);
      child := if was.left == null then was.right else was.left;
      parent, color := CutOut(was, child, xs, c, t);
      path, sub := c, OnlyChild(t);
    }

    method Remove(elm: Scn) returns (r: Scn)
      requires Valid() && elm in Nodes(shape)
      modifies this, Nodes(shape)`left, Nodes(shape)`right, Nodes(shape)`parent, Nodes(shape)`red
      ensures Valid() && r == elm
      ensures InOrder(shape) == Removed(old(InOrder(shape)), elm)
      ensures Nodes(shape) == old(Nodes(shape)) - {elm}
    {
      hide Rep, Bst, RedBlack, Removed, InOrder, BlackDefect;
      ghost var xs, at := Nodes(shape), Locate(Top, shape, elm);
      ghost var path, sub, s;
      var child, parent, color;
      PathFacts(xs, at.0, at.1);
      if elm.left == null || elm.right == null {
        parent, child, color, path, sub := RemoveOuter(elm, xs, at.0, at.1);
      } else {
        parent, child, color, path, sub := RemoveInner(elm, xs, at.0, at.1);
      }
      if !color {
        s := RemoveColor(parent, child, xs, path, sub);
      } else {
        s := Plug(path, sub);
      }
      Adopt(elm, s);
      r := elm;
    }

    /** The tree is now drawn as s. */
    ghost method Adopt(elm: Scn, s: Shape)
      requires Holds(Nodes(shape), s) && RedBlack(s) && elm in Nodes(shape)
      requires Bst(shape) && InOrder(s) == Removed(InOrder(shape), elm)
      modifies this`shape
      ensures Valid() && shape == s && Nodes(s) == old(Nodes(shape)) - {elm}
    {
      RemovedNodes(shape, s, elm);
      HoldsFrame(Nodes(shape), Nodes(s), s);
      shape := s;
    }

    // ---------- RB_FIND, RB_NFIND and the search of elf_getscn ----------

    method Find(elm: Scn) returns (r: Scn?)
      requires Valid()
      ensures Valid()
      ensures r != null ==> r in Nodes(shape) && r.ndx == elm.ndx
      ensures r == null ==> forall x <- Nodes(shape) :: x.ndx != elm.ndx
    {
      ghost var c, t := Top, shape;
      var tmp := root;
      while tmp != null
        invariant Valid() && Plug(c, t) == shape && tmp == Root(t) && Between(c, elm.ndx)
        decreases t
      {
        PathFacts(Nodes(shape), c, t);
        var comp := ScnCmp(elm, tmp);
        if comp < 0 {
          c, t := InL(c, t.n, t.red, t.r), t.l;
          tmp := tmp.left;
        } else if comp > 0 {
          c, t := InR(c, t.n, t.red, t.l), t.r;
          tmp := tmp.right;
        } else {
          PlugNodes(c, t);
          return tmp;
        }
      }
      NotFound(c, elm.ndx);
      r := null;
    }

    lemma NotFound(c: Path, k: nat)
      requires Bst(Plug(c, Nil)) && Between(c, k)
      ensures forall x <- Nodes(Plug(c, Nil)) :: x.ndx != k
      ensures forall x <- Elems(Before(c)) :: x.ndx < k
      ensures Nodes(Plug(c, Nil)) == Elems(Before(c)) + Elems(After(c))
    {
      BetweenNodes(c, Nil, k);
      PathElems(c);
      PlugNodes(c, Nil);
    }

    /** The first node whose key is not below that of elm. */
    method NFind(elm: Scn) returns (r: Scn?)
      requires Valid()
      ensures Valid()
      ensures r == null ==> forall x <- Nodes(shape) :: x.ndx < elm.ndx
      ensures r != null ==> r in Nodes(shape) && elm.ndx <= r.ndx
      ensures r != null ==> forall x <- Nodes(shape) :: elm.ndx <= x.ndx ==> r.ndx <= x.ndx
    {
      ghost var c, t := Top, shape;
      var tmp, res: Scn? := root, null;
      while tmp != null
        invariant Valid() && Plug(c, t) == shape && tmp == Root(t) && Between(c, elm.ndx) && res == First(After(c))
        decreases t
      {
        PathFacts(Nodes(shape), c, t);
        var comp := ScnCmp(elm, tmp);
        if comp < 0 {
          c, t := InL(c, t.n, t.red, t.r), t.l;
          res := tmp;
          tmp := tmp.left;
        } else if comp > 0 {
          c, t := InR(c, t.n, t.red, t.l), t.r;
          tmp := tmp.right;
        } else {
          PlugNodes(c, t);
          return tmp;
        }
      }
      NotFound(c, elm.ndx);
      BetweenNodes(c, Nil, elm.ndx);
      FirstIsLeast(c);
      r := res;
    }

    lemma FirstIsLeast(c: Path)
      requires Bst(Plug(c, Nil))
      ensures forall x <- Elems(After(c)) :: First(After(c)) != null && First(After(c)).ndx <= x.ndx
      ensures First(After(c)) != null ==> First(After(c)) in Elems(After(c))
    {
      PlugInOrder(c, Nil);
      BstIffAscending(Plug(c, Nil));
      var a, b := Before(c), After(c);
      forall x <- Elems(b) ensures b[0].ndx <= x.ndx {
        var i :| 0 <= i < |b| && b[i] == x;
        assert (a + [] + b)[|a|] == b[0] && (a + [] + b)[|a| + i] == x;
      }
    }

    /** The search of elf_getscn, with the number of nodes it looks at. */
    method Search(index: nat) returns (s: Scn?, ghost steps: nat)
      requires Valid()
      ensures Valid()
      ensures s != null ==> s in Nodes(shape) && s.ndx == index
      ensures s == null ==> forall x <- Nodes(shape) :: x.ndx != index
      ensures Pow2(steps) <= (|InOrder(shape)| + 1) * (|InOrder(shape)| + 1)
    {
      hide Rep, Bst, InOrder, Pow2;
      ghost var c, t := Top, shape;
      s, steps := root, 0;
      Pow2Monotone(0, Height(shape));
      HeightBound(shape);
      while s != null
        invariant Valid() && Plug(c, t) == shape && s == Root(t) && Between(c, index)
        invariant steps + Height(t) <= Height(shape)
        decreases t
      {
        PathFacts(Nodes(shape), c, t);
        steps := steps + 1;
        if s.ndx == index {
          PlugNodes(c, t);
          Pow2Monotone(steps, Height(shape));
          return;
        }
        if s.ndx < index {
          c, t := InR(c, t.n, t.red, t.l), t.r;
          s := s.right;
        } else {
          c, t := InL(c, t.n, t.red, t.r), t.l;
          s := s.left;
        }
      }
      NotFound(c, index);
      Pow2Monotone(steps, Height(shape));
    }

    // ---------- RB_MINMAX, RB_NEXT, RB_FOREACH ----------

    method MinMax(val: int) returns (parent: Scn?)
      requires Valid()
      ensures Valid()
      ensures val < 0 ==> parent == First(InOrder(shape))
      ensures val >= 0 ==> parent == Last(InOrder(shape))
    {
      ghost var c, t := Top, shape;
      var tmp := root;
      parent := null;
      while tmp != null
        invariant Valid() && Plug(c, t) == shape && tmp == Root(t) && parent == Above(c)
        invariant val < 0 ==> Before(c) == [] && (!c.Top? ==> c.InL?)
        invariant val >= 0 ==> After(c) == [] && (!c.Top? ==> c.InR?)
        decreases t
      {
        PathFacts(Nodes(shape), c, t);
        parent := tmp;
        if val < 0 {
          c, t := InL(c, t.n, t.red, t.r), t.l;
          tmp := tmp.left;
        } else {
          c, t := InR(c, t.n, t.red, t.l), t.r;
          tmp := tmp.right;
        }
      }
      PlugInOrder(c, Nil);
    }

    /** The first node of the subtree t in traversal order. */
    method Leftmost(node: Scn, ghost path: Path, ghost sub: Shape) returns (elm: Scn)
      requires Valid() && Plug(path, sub) == shape && sub.Bin? && sub.n == node
      ensures Valid() && elm == First(InOrder(sub))
    {
      ghost var c, t := path, sub;
      elm := node;
      PathFacts(Nodes(shape), c, t);
      while elm.left != null
        invariant Valid() && Plug(c, t) == shape && t.Bin? && t.n == elm && First(InOrder(t)) == First(InOrder(sub))
        invariant elm.left == Root(t.l)
        decreases t
      {
        elm := elm.left;
        c, t := InL(c, t.n, t.red, t.r), t.l;
        PathFacts(Nodes(shape), c, t);
      }
    }

    /** The nearest ancestor that has node in its left subtree. */
    method Climb(node: Scn, ghost path: Path, ghost sub: Shape) returns (elm: Scn?)
      requires Valid() && Plug(path, sub) == shape && sub.Bin? && sub.n == node
      ensures Valid() && elm == First(After(path))
    {
      ghost var c, t := path, sub;
      elm := node;
      PathFacts(Nodes(shape), c, t);
      while elm.parent != null && elm == elm.parent.right
        invariant Valid() && Plug(c, t) == shape && t.Bin? && t.n == elm && After(c) == After(path)
        invariant elm.parent == Above(c) && (!c.Top? ==> c.n.right == Root(Up(c, t).r) && elm != Root(c.sib))
        decreases Depth(c)
      {
        elm := elm.parent;
        c, t := c.up, Up(c, t);
        PathFacts(Nodes(shape), c, t);
      }
      elm := elm.parent;
    }

    method Next(node: Scn) returns (elm: Scn?)
      requires Valid() && node in Nodes(shape)
      ensures Valid() && elm == Follower(InOrder(shape), node)
    {
      ghost var at := Locate(Top, shape, node);
      ghost var c, t := at.0, at.1;
      FollowedBy(c, t);
      PathFacts(Nodes(shape), c, t);
      elm := node;
      if elm.right != null {
        elm := Leftmost(elm.right, InR(c, t.n, t.red, t.l), t.r);
      } else {
        if elm.parent != null && elm == elm.parent.left {
          elm := elm.parent;
        } else {
          elm := Climb(elm, c, t);
        }
      }
    }

    /** In the traversal order a node is followed by what its right subtree and the path after it list. */
    lemma FollowedBy(c: Path, t: Shape)
      requires Plug(c, t) == shape && t.Bin? && Bst(shape)
      ensures Follower(InOrder(shape), t.n) == First(InOrder(t.r) + After(c))
    {
      var a, b := Before(c) + InOrder(t.l), InOrder(t.r) + After(c);
      assert InOrder(shape) == a + [t.n] + b by { OrderAt(c, t.l, t.n, t.red, t.r); }
      BstIffAscending(shape);
      AscendingDrop(a, t.n, b);
      FollowerAt(a, t.n, b);
    }

    /** RB_FOREACH: every node once, in ascending key order. */
    method Foreach() returns (visited: seq<Scn>)
      requires Valid()
      ensures Valid()
      ensures visited == InOrder(shape) && Ascending(visited)
    {
      hide Rep, Bst, InOrder, Nodes, Ascending, Follower;
      ghost var q := InOrder(shape);
      ghost var rest := q;
      assert Ascending(q) by {
        BstIffAscending(shape);
      }
      visited := [];
      var x := MinMax(-1);
      while x != null
        invariant Valid() && q == InOrder(shape) && visited + rest == q && x == First(rest)
        decreases |rest|
      {
        assert rest == [x] + rest[1..];
        Visit(visited, x, rest[1..]);
        visited, rest := visited + [x], rest[1..];
        x := Next(x);
      }
    }

    lemma Visit(a: seq<Scn>, x: Scn, b: seq<Scn>)
      requires Bst(shape)
      requires a + ([x] + b) == InOrder(shape)
      ensures x in Nodes(shape) && Follower(InOrder(shape), x) == First(b)
    {
      assert a + [x] + b == a + ([x] + b);
      BstIffAscending(shape);
      AscendingDrop(a, x, b);
      FollowerAt(a, x, b);
      ElemsJoin(a, x, b);
      InOrderNodes(shape);
    }

    /** One round of RB_FOREACH_SAFE: the next node is read before scn is removed. */
    method DrainOne(scn: Scn, ghost rest: seq<Scn>) returns (tscn: Scn?)
      requires Valid() && InOrder(shape) == [scn] + rest
      modifies this, Nodes(shape)`left, Nodes(shape)`right, Nodes(shape)`parent, Nodes(shape)`red
      ensures Valid() && InOrder(shape) == rest && tscn == First(rest) && Nodes(shape) <= old(Nodes(shape))
    {
      Visit([], scn, rest);
      tscn := Next(scn);
      var _ := Remove(scn);
    }

    /** RB_FOREACH_SAFE with the removal of every visited node, as elf_end and _libelf_write_elf release sections. */
    method Drain() returns (released: seq<Scn>)
      requires Valid()
      modifies this, Nodes(shape)`left, Nodes(shape)`right, Nodes(shape)`parent, Nodes(shape)`red
      ensures Valid() && root == null && shape == Nil
      ensures released == old(InOrder(shape))
    {
      hide Rep, Bst, ScnTree.Valid, InOrder, Nodes;
      ghost var xs, q, rest := Nodes(shape), InOrder(shape), InOrder(shape);
      released := [];
      var scn := MinMax(-1);
      while scn != null
        invariant Valid() && Nodes(shape) <= xs && InOrder(shape) == rest
        invariant scn == First(rest) && released + rest == q
        decreases |rest|
      {
        var s: Scn := scn;
        assert rest == [s] + rest[1..];
        rest, released := rest[1..], released + [s];
        scn := DrainOne(s, rest);
      }
      Emptied();
    }

    lemma Emptied()
      requires Valid() && InOrder(shape) == []
      ensures root == null && shape == Nil
    {
    }
  }
}
