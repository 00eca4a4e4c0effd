/** The pointer updates of sys/tree.h as functions on links, and what they do to the shape drawn by the links. */
module RbLinks {
  import opened Section
  import opened RbShape
  import opened RbBalance

  lemma PlugRoot(c: Path, s: Shape, s': Shape)
    ensures Root(Plug(c, s')) == if c.Top? then Root(s') else Root(Plug(c, s))
    ensures Plug(c, s).Bin? <==> !c.Top? || s.Bin?
  {
    match c
    case Top =>
    case InL(up, n, red, r) => PlugRoot(up, Bin(s, n, red, r), Bin(s', n, red, r));
    case InR(up, n, red, l) => PlugRoot(up, Bin(l, n, red, s), Bin(l, n, red, s'));
  }

  lemma RootInPath(c: Path, s: Shape)
    ensures !c.Top? ==> Root(Plug(c, s)) in PathNodes(c)
  {
    if !c.Top? && !c.up.Top? {
      RootInPath(c.up, Up(c, s));
    }
  }

  /** A subtree is replaced when the new links draw it and the parent of the hole points to its root. */
  lemma ReplaceSubtree(m: Links, m': Links, c: Path, s: Shape, s': Shape)
    requires Rep(m, Plug(c, s), null) && Bst(Plug(c, s)) && s.Bin?
    requires Rep(m', s', Above(c))
    requires HoleMoved(m, m', c, s.n, Root(s'))
    ensures Rep(m', Plug(c, s'), null)
  {
    PlugRep(m, c, s);
    RepHoleMoved(m, m', c, s, Root(s'));
    PlugRep(m', c, s');
  }

  // ---------- Rotations ----------

  /** Both sides of a rotation list the same nodes in the same order. */
  lemma RotatedInOrder(a: Shape, x: Scn, xr: bool, b: Shape, y: Scn, yr: bool, d: Shape)
    ensures InOrder(Bin(Bin(a, x, xr, b), y, yr, d)) == InOrder(Bin(a, x, xr, Bin(b, y, yr, d)))
  {
    calc {
      InOrder(Bin(a, x, xr, Bin(b, y, yr, d)));
      InOrder(a) + [x] + (InOrder(b) + [y] + InOrder(d));
      (InOrder(a) + [x] + InOrder(b)) + [y] + InOrder(d);
    }
  }

  /** The links after a left rotation at x, whose right child is y. */
  function LeftLinks(m: Links, x: Scn, y: Scn): Links
    requires x in m && y in m
  {
    map z | z in m ::
      if z == x then m[x].(right := m[y].left, parent := y)
      else if z == y then m[y].(left := x, parent := m[x].parent)
      else if z == m[y].left then m[z].(parent := x)
      else if z == m[x].parent then Redirected(m[z], x, y)
      else m[z]
  }

  function RightLinks(m: Links, x: Scn, y: Scn): Links
    requires x in m && y in m
  {
    map z | z in m ::
      if z == x then m[x].(left := m[y].right, parent := y)
      else if z == y then m[y].(right := x, parent := m[x].parent)
      else if z == m[y].right then m[z].(parent := x)
      else if z == m[x].parent then Redirected(m[z], x, y)
      else m[z]
  }

  /** The nodes named by a rotation are apart from the subtrees that it moves. */
  ghost predicate Apart(p: Scn?, a: Shape, x: Scn, b: Shape, y: Scn, d: Shape) {
    && x != y && p != x && p != y && RootOnce(b)
    && {x, y} !! Nodes(b)
    && {x, y} + Nodes(b) !! Nodes(a)
    && {x, y} + Nodes(b) !! Nodes(d)
    && (p == null || p !in Nodes(a) + Nodes(b) + Nodes(d))
  }

  lemma LeftApart(p: Scn?, a: Shape, x: Scn, xr: bool, b: Shape, y: Scn, yr: bool, d: Shape)
    requires Bst(Bin(a, x, xr, Bin(b, y, yr, d)))
    requires p == null || p !in Nodes(Bin(a, x, xr, Bin(b, y, yr, d)))
    ensures Apart(p, a, x, b, y, d)
  {
    var t := Bin(b, y, yr, d);
    assert Bst(t);
    assert Nodes(t) == Nodes(b) + {y} + Nodes(d);
  }

  lemma RightApart(p: Scn?, a: Shape, y: Scn, yr: bool, b: Shape, x: Scn, xr: bool, d: Shape)
    requires Bst(Bin(Bin(a, y, yr, b), x, xr, d))
    requires p == null || p !in Nodes(Bin(Bin(a, y, yr, b), x, xr, d))
    ensures Apart(p, a, y, b, x, d)
  {
    var t := Bin(a, y, yr, b);
    assert Bst(t);
    assert Nodes(t) == Nodes(a) + {y} + Nodes(b);
  }

  lemma LeftSubtree(m: Links, p: Scn?, a: Shape, x: Scn, xr: bool, b: Shape, y: Scn, yr: bool, d: Shape)
    requires Rep(m, Bin(a, x, xr, Bin(b, y, yr, d)), p) && Apart(p, a, x, b, y, d)
    ensures x in m && y in m && Rep(LeftLinks(m, x, y), Bin(Bin(a, x, xr, b), y, yr, d), p)
  {
    var m' := LeftLinks(m, x, y);
    assert Rep(m', a, x) by { RepFrame(m, m', a, x); }
    assert Rep(m', b, x) by { RepReparent(m, m', b, y, x); }
    assert Rep(m', d, y) by { RepFrame(m, m', d, y); }
  }

  lemma RightSubtree(m: Links, p: Scn?, a: Shape, y: Scn, yr: bool, b: Shape, x: Scn, xr: bool, d: Shape)
    requires Rep(m, Bin(Bin(a, y, yr, b), x, xr, d), p) && Apart(p, a, y, b, x, d)
    ensures x in m && y in m && Rep(RightLinks(m, x, y), Bin(a, y, yr, Bin(b, x, xr, d)), p)
  {
    var m' := RightLinks(m, x, y);
    assert Rep(m', d, x) by { RepFrame(m, m', d, x); }
    assert Rep(m', b, x) by { RepReparent(m, m', b, y, x); }
    assert Rep(m', a, y) by { RepFrame(m, m', a, y); }
  }

  lemma LeftLinksRep(m: Links, c: Path, a: Shape, x: Scn, xr: bool, b: Shape, y: Scn, yr: bool, d: Shape)
    requires Rep(m, Plug(c, Bin(a, x, xr, Bin(b, y, yr, d))), null) && Bst(Plug(c, Bin(a, x, xr, Bin(b, y, yr, d))))
    ensures x in m && y in m
    ensures Rep(LeftLinks(m, x, y), Plug(c, Bin(Bin(a, x, xr, b), y, yr, d)), null)
  {
    var s := Bin(a, x, xr, Bin(b, y, yr, d));
    PlugRep(m, c, s);
    PlugBst(c, s);
    LeftApart(Above(c), a, x, xr, b, y, yr, d);
    LeftSubtree(m, Above(c), a, x, xr, b, y, yr, d);
    assert {x, y} + Nodes(b) <= Nodes(s);
    ReplaceSubtree(m, LeftLinks(m, x, y), c, s, Bin(Bin(a, x, xr, b), y, yr, d));
  }

  lemma RightLinksRep(m: Links, c: Path, a: Shape, y: Scn, yr: bool, b: Shape, x: Scn, xr: bool, d: Shape)
    requires Rep(m, Plug(c, Bin(Bin(a, y, yr, b), x, xr, d)), null) && Bst(Plug(c, Bin(Bin(a, y, yr, b), x, xr, d)))
    ensures x in m && y in m
    ensures Rep(RightLinks(m, x, y), Plug(c, Bin(a, y, yr, Bin(b, x, xr, d))), null)
  {
    var s := Bin(Bin(a, y, yr, b), x, xr, d);
    PlugRep(m, c, s);
    PlugBst(c, s);
    RightApart(Above(c), a, y, yr, b, x, xr, d);
    RightSubtree(m, Above(c), a, y, yr, b, x, xr, d);
    assert {x, y} + Nodes(b) <= Nodes(s);
    ReplaceSubtree(m, RightLinks(m, x, y), c, s, Bin(a, y, yr, Bin(b, x, xr, d)));
  }

  // ---------- Colours ----------

  lemma PaintRep(m: Links, c: Path, s: Shape, red: bool)
    requires s.Bin? && Rep(m, Plug(c, s), null) && Bst(Plug(c, s))
    ensures s.n in m
    ensures Rep(m[s.n := m[s.n].(red := red)], Plug(c, s.(red := red)), null)
  {
    PlugRep(m, c, s);
    PlugBst(c, s);
    var m' := m[s.n := m[s.n].(red := red)];
    RepFrame(m, m', s.l, s.n);
    RepFrame(m, m', s.r, s.n);
    ReplaceSubtree(m, m', c, s, s.(red := red));
  }

  // ---------- Insertion and removal of one node ----------

  /** A new leaf x under the parent of an empty hole. */
  lemma LeafRep(m: Links, m': Links, c: Path, x: Scn)
    requires Rep(m, Plug(c, Nil), null) && x !in PathNodes(c)
    requires Bst(Plug(c, Bin(Nil, x, true, Nil)))
    requires x in m' && m'[x] == Entry(null, null, Above(c), true)
    requires SameOn(m, m', PathNodes(c) - (if c.Top? then {} else {c.n}))
    requires c.InL? ==> c.n in m && c.n in m' && m'[c.n] == m[c.n].(left := x)
    requires c.InR? ==> c.n in m && c.n in m' && m'[c.n] == m[c.n].(right := x)
    ensures Rep(m', Plug(c, Bin(Nil, x, true, Nil)), null)
  {
    PlugRep(m, c, Nil);
    PlugBst(c, Bin(Nil, x, true, Nil));
    PlugRep(m', c, Bin(Nil, x, true, Nil));
    if !c.Top? {
      RepFrame(m, m', c.sib, c.n);
      RepPathFrame(m, m', c.up, c.n);
    }
  }

  lemma LeafBst(c: Path, x: Scn)
    requires Bst(Plug(c, Nil)) && Between(c, x.ndx)
    ensures Bst(Plug(c, Bin(Nil, x, true, Nil)))
    ensures InOrder(Plug(c, Bin(Nil, x, true, Nil))) == Inserted(InOrder(Plug(c, Nil)), x)
  {
    var leaf := Bin(Nil, x, true, Nil);
    var a, b := Before(c), After(c);
    assert InOrder(Plug(c, Nil)) == a + b by {
      PlugInOrder(c, Nil);
      assert a + [] + b == a + b;
    }
    assert InOrder(Plug(c, leaf)) == a + [x] + b by {
      PlugInOrder(c, leaf);
    }
    assert Ascending(a + b) by { BstIffAscending(Plug(c, Nil)); }
    BetweenNodes(c, Nil, x.ndx);
    InsertAscending(a, x, b);
    BstIffAscending(Plug(c, leaf));
  }

  /** The links after x, which has at most the child y, is cut out. */
  function SpliceLinks(m: Links, x: Scn, y: Scn?): Links
    requires x in m
  {
    map z | z in m ::
      if z == y then m[z].(parent := m[x].parent)
      else if z == m[x].parent then Redirected(m[z], x, y)
      else m[z]
  }

  lemma SpliceRep(m: Links, c: Path, s: Shape)
    requires s.Bin? && (s.l.Nil? || s.r.Nil?) && Rep(m, Plug(c, s), null) && Bst(Plug(c, s))
    ensures s.n in m
    ensures Rep(SpliceLinks(m, s.n, Root(OnlyChild(s))), Plug(c, OnlyChild(s)), null)
    ensures InOrder(Plug(c, OnlyChild(s))) == Before(c) + InOrder(OnlyChild(s)) + After(c)
  {
    PlugRep(m, c, s);
    PlugBst(c, s);
    var t := OnlyChild(s);
    var m' := SpliceLinks(m, s.n, Root(t));
    RepReparent(m, m', t, s.n, Above(c));
    ReplaceSubtree(m, m', c, s, t);
    PlugInOrder(c, t);
  }

  /** The links after y takes over the position, the links and the colour of x. */
  function TransplantLinks(m: Links, x: Scn, y: Scn): Links
    requires x in m
  {
    map z | z in m ::
      if z == y then m[x]
      else if z == m[x].left || z == m[x].right then m[z].(parent := y)
      else if z == m[x].parent then Redirected(m[z], x, y)
      else m[z]
  }

  lemma TransplantRep(m: Links, c: Path, l: Shape, x: Scn, red: bool, r: Shape, y: Scn)
    requires Rep(m, Plug(c, Bin(l, x, red, r)), null) && Bst(Plug(c, Bin(l, x, red, r)))
    requires y !in Nodes(Plug(c, Bin(l, x, red, r))) && y in m
    ensures x in m
    ensures Rep(TransplantLinks(m, x, y), Plug(c, Bin(l, y, red, r)), null)
  {
    var s := Bin(l, x, red, r);
    PlugRep(m, c, s);
    var m' := TransplantLinks(m, x, y);
    PlugBst(c, s);
    PlugNodes(c, s);
    TransplantSubtree(m, Above(c), l, x, red, r, y);
    assert HoleMoved(m, m', c, x, y);
    ReplaceSubtree(m, m', c, s, Bin(l, y, red, r));
  }

  lemma TransplantSubtree(m: Links, p: Scn?, l: Shape, x: Scn, red: bool, r: Shape, y: Scn)
    requires Rep(m, Bin(l, x, red, r), p) && Bst(Bin(l, x, red, r)) && y in m
    requires y !in Nodes(Bin(l, x, red, r)) && (p == null || p !in Nodes(Bin(l, x, red, r)))
    ensures x in m && Rep(TransplantLinks(m, x, y), Bin(l, y, red, r), p)
  {
    var m' := TransplantLinks(m, x, y);
    assert Rep(m', l, y) by { RepReparent(m, m', l, x, y); }
    assert Rep(m', r, y) by { RepReparent(m, m', r, x, y); }
  }

  // ---------- The successor of a node with two children ----------

  predicate LeftSpine(d: Path) {
    d.Top? || (d.InL? && LeftSpine(d.up))
  }

  lemma LeftSpineInOrder(d: Path, y: Scn, red: bool, r: Shape)
    requires LeftSpine(d)
    ensures InOrder(Plug(d, Bin(Nil, y, red, r))) == [y] + InOrder(Plug(d, r))
  {
    LeftSpineBefore(d);
    PlugInOrder(d, Bin(Nil, y, red, r));
    PlugInOrder(d, r);
    assert [] + ([] + [y] + InOrder(r)) + After(d) == [y] + ([] + InOrder(r) + After(d));
  }

  lemma LeftSpineBefore(d: Path)
    requires LeftSpine(d)
    ensures Before(d) == []
  {
  }

  /** The path to the successor y of x: x sits below c with left subtree l, and y is leftmost in its right subtree. */
  function SuccessorPath(c: Path, x: Scn, red: bool, l: Shape, d: Path): Path {
    Append(InR(c, x, red, l), d)
  }

  /** The nodes around x, its left child a, the root b of its right subtree, its successor y with parent p and child k,
      and the parent q of x are as different as they look. */
  predicate Separate(q: Scn?, a: Scn, x: Scn, b: Scn?, p: Scn, y: Scn, k: Scn?) {
    && x != y && a !in {x, y, b} && b != x && p !in {y, a}
    && q !in {x, y, a, b, p} && (k == null || k !in {x, y, a, b, p, q})
  }

  lemma SuccessorSeparate(c: Path, l: Shape, x: Scn, red: bool, d: Path, y: Scn, yred: bool, r: Shape)
    requires Bst(Plug(SuccessorPath(c, x, red, l, d), Bin(Nil, y, yred, r))) && l.Bin?
    ensures Separate(Above(c), l.n, x, Root(Plug(d, Bin(Nil, y, yred, r))), if d.Top? then x else d.n, y, Root(r))
  {
    hide Bst, InOrder;
    var s := Bin(Nil, y, yred, r);
    var t := Plug(d, s);
    var b, p := Root(t), if d.Top? then x else d.n;
    PlugRoot(d, s, s);
    RootInPath(d, s);
    assert y in Nodes(s) && (r.Bin? ==> r.n in Nodes(s));
    assert {p, b} <= Nodes(t) + {x} && b in Nodes(t) && y in Nodes(t) &&
        (r.Bin? ==> r.n in Nodes(t)) by { PlugNodes(d, s); }
    assert y !in {x, l.n, p} && (r.Bin? ==> r.n !in {x, y, l.n, p, b}) by {
      PlugBst(SuccessorPath(c, x, red, l, d), s);
      AppendNodes(InR(c, x, red, l), d);
    }
    PlugAppend(InR(c, x, red, l), d, s);
    assert l.n !in {x, y, b, p} && x != b by {
      PlugBst(InL(c, x, red, t), l);
    }
    assert Above(c) !in {x, y, l.n, b, p} && (r.Bin? ==> r.n != Above(c)) by {
      PlugBst(c, Bin(l, x, red, t));
    }
  }

  /** The links after y has been cut out and has taken over the position of x. */
  lemma SuccessorRep(m: Links, m': Links, c: Path, l: Shape, x: Scn, red: bool, d: Path, y: Scn, yred: bool, r: Shape)
    requires Bst(Plug(SuccessorPath(c, x, red, l, d), Bin(Nil, y, yred, r)))
    requires Rep(m, Plug(SuccessorPath(c, x, red, l, d), Bin(Nil, y, yred, r)), null)
    requires x in m && y in m
    requires forall z <- m.Keys - {x} :: z in m' && m'[z] == TransplantLinks(SpliceLinks(m, y, Root(r)), x, y)[z]
    requires LeftSpine(d)
    ensures Rep(m', Plug(SuccessorPath(c, y, red, l, d), r), null)
    ensures Bst(Plug(SuccessorPath(c, y, red, l, d), r))
    ensures InOrder(Plug(SuccessorPath(c, y, red, l, d), r))
         == Removed(InOrder(Plug(SuccessorPath(c, x, red, l, d), Bin(Nil, y, yred, r))), x)
  {
    var s1 := Plug(c, Bin(l, x, red, Plug(d, r)));
    var s2 := Plug(c, Bin(l, y, red, Plug(d, r)));
    assert s2 == Plug(SuccessorPath(c, y, red, l, d), r) by { PlugAppend(InR(c, y, red, l), d, r); }
    assert s1 == Plug(SuccessorPath(c, x, red, l, d), r) by { PlugAppend(InR(c, x, red, l), d, r); }
    SuccessorOrder(c, l, x, red, d, y, yred, r);
    var m1 := SpliceLinks(m, y, Root(r));
    assert Rep(m1, s1, null) by { SpliceRep(m, SuccessorPath(c, x, red, l, d), Bin(Nil, y, yred, r)); }
    var m2 := TransplantLinks(m1, x, y);
    assert Rep(m2, s2, null) by { TransplantRep(m1, c, l, x, red, Plug(d, r), y); }
    RepFrame(m2, m', s2, null);
  }

  lemma SuccessorOrder(c: Path, l: Shape, x: Scn, red: bool, d: Path, y: Scn, yred: bool, r: Shape)
    requires Bst(Plug(SuccessorPath(c, x, red, l, d), Bin(Nil, y, yred, r))) && LeftSpine(d)
    ensures Bst(Plug(c, Bin(l, x, red, Plug(d, r)))) && y !in Nodes(Plug(c, Bin(l, x, red, Plug(d, r))))
    ensures Bst(Plug(c, Bin(l, y, red, Plug(d, r)))) && x !in Nodes(Plug(c, Bin(l, y, red, Plug(d, r))))
    ensures InOrder(Plug(c, Bin(l, y, red, Plug(d, r))))
         == Removed(InOrder(Plug(SuccessorPath(c, x, red, l, d), Bin(Nil, y, yred, r))), x)
  {
    var a, b := Before(c) + InOrder(l), InOrder(Plug(d, r)) + After(c);
    var s0 := Plug(SuccessorPath(c, x, red, l, d), Bin(Nil, y, yred, r));
    SuccessorInOrder(c, l, x, red, d, y, yred, r);
    BstIffAscending(s0);
    DropTwo(a, x, y, b);
    BstFromOrder(Plug(c, Bin(l, x, red, Plug(d, r))), a + [x] + b);
    BstFromOrder(Plug(c, Bin(l, y, red, Plug(d, r))), a + [y] + b);
  }

  lemma SuccessorInOrder(c: Path, l: Shape, x: Scn, red: bool, d: Path, y: Scn, yred: bool, r: Shape)
    requires LeftSpine(d)
    ensures InOrder(Plug(SuccessorPath(c, x, red, l, d), Bin(Nil, y, yred, r)))
         == Before(c) + InOrder(l) + [x] + [y] + (InOrder(Plug(d, r)) + After(c))
    ensures InOrder(Plug(c, Bin(l, x, red, Plug(d, r)))) ==
        Before(c) + InOrder(l) + [x] + (InOrder(Plug(d, r)) + After(c))
    ensures InOrder(Plug(c, Bin(l, y, red, Plug(d, r)))) ==
        Before(c) + InOrder(l) + [y] + (InOrder(Plug(d, r)) + After(c))
  {
    var t := Plug(d, Bin(Nil, y, yred, r));
    assert InOrder(Plug(SuccessorPath(c, x, red, l, d), Bin(Nil, y, yred, r)))
        == Before(c) + InOrder(l) + [x] + (InOrder(t) + After(c)) by {
      PlugAppend(InR(c, x, red, l), d, Bin(Nil, y, yred, r));
      OrderAt(c, l, x, red, t);
    }
    assert InOrder(t) == [y] + InOrder(Plug(d, r)) by { LeftSpineInOrder(d, y, yred, r); }
    SecondOut(Before(c) + InOrder(l) + [x], y, InOrder(Plug(d, r)), After(c));
    OrderAt(c, l, x, red, Plug(d, r));
    OrderAt(c, l, y, red, Plug(d, r));
  }

  lemma SecondOut(a: seq<Scn>, y: Scn, u: seq<Scn>, e: seq<Scn>)
    ensures a + (([y] + u) + e) == a + [y] + (u + e)
  {
  }

  lemma OrderAt(c: Path, l: Shape, x: Scn, red: bool, t: Shape)
    ensures InOrder(Plug(c, Bin(l, x, red, t))) == Before(c) + InOrder(l) + [x] + (InOrder(t) + After(c))
  {
    PlugInOrder(c, Bin(l, x, red, t));
    assert Before(c) + (InOrder(l) + [x] + InOrder(t)) + After(c) ==
        Before(c) + InOrder(l) + [x] + (InOrder(t) + After(c));
  }

  lemma BstFromOrder(s: Shape, q: seq<Scn>)
    requires InOrder(s) == q && Ascending(q)
    ensures Bst(s) && Nodes(s) == Elems(q)
  {
    BstIffAscending(s);
    InOrderNodes(s);
  }

  lemma DropTwo(a: seq<Scn>, x: Scn, y: Scn, b: seq<Scn>)
    requires Ascending(a + [x] + [y] + b)
    ensures Ascending(a + [x] + b) && y !in Elems(a + [x] + b)
    ensures Ascending(a + [y] + b) && x !in Elems(a + [y] + b)
    ensures Removed(a + [x] + [y] + b, x) == a + [y] + b
  {
    AscendingDrop(a + [x], y, b);
    assert a + [x] + [y] + b == a + [x] + ([y] + b);
    AscendingDrop(a, x, [y] + b);
    assert a + ([y] + b) == a + [y] + b;
    RemovedAt(a, x, [y] + b);
  }

  /** Dropping one element keeps a sequence ascending, and the element does not occur elsewhere. */
  lemma AscendingDrop(a: seq<Scn>, x: Scn, b: seq<Scn>)
    requires Ascending(a + [x] + b)
    ensures Ascending(a + b) && x !in a && x !in b && x !in Elems(a + b)
  {
    AscendingSplit(a, x, b);
    assert x !in Elems(a) && x !in Elems(b);
    var q := a + [x] + b;
    forall i, j | 0 <= i < j < |a + b| ensures (a + b)[i].ndx < (a + b)[j].ndx {
      assert (a + b)[i] == q[if i < |a| then i else i + 1];
      assert (a + b)[j] == q[if j < |a| then j else j + 1];
    }
  }

  lemma CutOrder(c: Path, t: Shape)
    requires t.Bin? && (t.l.Nil? || t.r.Nil?) && Bst(Plug(c, t))
    ensures Bst(Plug(c, OnlyChild(t)))
    ensures InOrder(Plug(c, OnlyChild(t))) == Removed(InOrder(Plug(c, t)), t.n)
  {
    hide Bst, Ascending, Removed, Plug, Before, After;
    var a, b := Before(c) + InOrder(t.l), InOrder(t.r) + After(c);
    assert InOrder(Plug(c, t)) == a + [t.n] + b by { OrderAt(c, t.l, t.n, t.red, t.r); }
    assert Ascending(a + [t.n] + b) by { BstIffAscending(Plug(c, t)); }
    AscendingDrop(a, t.n, b);
    RemovedAt(a, t.n, b);
    assert InOrder(Plug(c, OnlyChild(t))) == a + b by {
      PlugInOrder(c, OnlyChild(t));
      if t.l.Nil? {
        assert Before(c) + InOrder(t.r) + After(c) == Before(c) + [] + (InOrder(t.r) + After(c));
      } else {
        assert Before(c) + InOrder(t.l) + After(c) == Before(c) + InOrder(t.l) + ([] + After(c));
      }
    }
    BstFromOrder(Plug(c, OnlyChild(t)), a + b);
  }

  /** What cutting out the successor does to the balance. */
  lemma SuccessorBalance(c: Path, l: Shape, x: Scn, red: bool, d: Path, y: Scn, yred: bool, r: Shape)
    requires RedBlack(Plug(SuccessorPath(c, x, red, l, d), Bin(Nil, y, yred, r)))
    ensures if yred then RedBlack(Plug(SuccessorPath(c, y, red, l, d), r))
        else BlackDefect(SuccessorPath(c, y, red, l, d), r)
  {
    var u := Bin(Nil, y, yred, r);
    UnplugRb(SuccessorPath(c, x, red, l, d), u);
    RbPathRename(c, x, y, red, l, d, Bh(u));
    RenameFits(c, x, y, red, l, d, u);
    CutStep(SuccessorPath(c, y, red, l, d), u);
  }

  lemma RenameFits(c: Path, x: Scn, y: Scn, red: bool, l: Shape, d: Path, u: Shape)
    ensures Fits(SuccessorPath(c, x, red, l, d), u) == Fits(SuccessorPath(c, y, red, l, d), u)
  {
  }

  /** Where the successor's child hangs, and which nodes and root the tree has afterwards. */
  lemma SuccessorShape(c: Path, l: Shape, x: Scn, red: bool, d: Path, y: Scn, yred: bool, r: Shape)
    requires LeftSpine(d)
    ensures Nodes(Plug(SuccessorPath(c, y, red, l, d), r)) <=
            Nodes(Plug(SuccessorPath(c, x, red, l, d), Bin(Nil, y, yred, r)))
    ensures Root(Plug(SuccessorPath(c, y, red, l, d), r)) ==
      if c.Top? then y else Root(Plug(SuccessorPath(c, x, red, l, d), Bin(Nil, y, yred, r)))
    ensures !SuccessorPath(c, y, red, l, d).Top?
    ensures SuccessorPath(c, y, red, l, d).n == if d.Top? then y else d.n
  {
    var u := Bin(Nil, y, yred, r);
    PlugNodes(SuccessorPath(c, y, red, l, d), r);
    PlugNodes(SuccessorPath(c, x, red, l, d), u);
    AppendNodes(InR(c, y, red, l), d);
    AppendNodes(InR(c, x, red, l), d);
    PlugAppend(InR(c, y, red, l), d, r);
    PlugAppend(InR(c, x, red, l), d, u);
    PlugRoot(c, Bin(l, x, red, Plug(d, u)), Bin(l, y, red, Plug(d, r)));
  }

  lemma RemovedNodes(s: Shape, s': Shape, x: Scn)
    requires Bst(s) && InOrder(s') == Removed(InOrder(s), x) && x in Nodes(s)
    ensures Nodes(s') == Nodes(s) - {x}
  {
    BstIffAscending(s);
    InOrderNodes(s);
    InOrderNodes(s');
    RemovedElems(InOrder(s), x);
  }

  lemma {:induction false} RemovedElems(q: seq<Scn>, x: Scn)
    requires Ascending(q) && x in q
    ensures Elems(Removed(q, x)) == Elems(q) - {x}
  {
    assert q == [q[0]] + q[1..];
    ElemsConcat([q[0]], q[1..]);
    if q[0] == x {
      assert x !in q[1..];
    } else {
      RemovedElems(q[1..], x);
      ElemsConcat([q[0]], Removed(q[1..], x));
    }
  }
}
