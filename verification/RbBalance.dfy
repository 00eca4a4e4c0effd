/** The balance conditions of a red-black tree (sys/tree.h, lines 51-59) on shapes and on paths. */
module RbBalance {
  import opened Basics
  import opened Section
  import opened RbShape

  predicate IsRed(s: Shape) {
    s.Bin? && s.red
  }

  /** s is balanced with black height h: no red node has a red child and all leaf paths meet h black nodes. */
  predicate Rb(s: Shape, h: nat) {
    match s
    case Nil => h == 0
    case Bin(l, _, red, r) =>
      if red then !IsRed(l) && !IsRed(r) && Rb(l, h) && Rb(r, h)
      else h > 0 && Rb(l, h - 1) && Rb(r, h - 1)
  }

  function Bh(s: Shape): nat {
    match s
    case Nil => 0
    case Bin(l, _, red, _) => if red then Bh(l) else Bh(l) + 1
  }

  predicate RedBlack(s: Shape) {
    !IsRed(s) && Rb(s, Bh(s))
  }

  lemma RbBh(s: Shape, h: nat)
    requires Rb(s, h)
    ensures h == Bh(s)
  {
  }

  /** The path is balanced for a hole of black height h; the root stays black, and no two path nodes
      in a row are red.  The hole itself may still clash with a red parent. */
  predicate RbPath(c: Path, h: nat) {
    c.Top? ||
    (&& Rb(c.sib, h)
     && if c.red then !IsRed(c.sib) && !c.up.Top? && !c.up.red && RbPath(c.up, h) else RbPath(c.up, h + 1))
  }

  /** A subtree fits under a path when its root does not clash with the parent of the hole. */
  predicate Fits(c: Path, s: Shape) {
    IsRed(s) ==> !c.Top? && !c.red
  }

  lemma {:induction false} PlugRb(c: Path, s: Shape, h: nat)
    requires Rb(s, h) && RbPath(c, h) && Fits(c, s)
    ensures RedBlack(Plug(c, s))
  {
    match c
    case Top => RbBh(s, h);
    case InL(up, n, red, r) => PlugRb(up, Bin(s, n, red, r), if red then h else h + 1);
    case InR(up, n, red, l) => PlugRb(up, Bin(l, n, red, s), if red then h else h + 1);
  }

  lemma {:induction false} UnplugRb(c: Path, s: Shape)
    requires RedBlack(Plug(c, s))
    ensures Rb(s, Bh(s)) && RbPath(c, Bh(s)) && Fits(c, s)
  {
    match c
    case Top =>
    case InL(up, n, red, r) =>
      UnplugRb(up, Bin(s, n, red, r));
      RbBh(r, Bh(s));
    case InR(up, n, red, l) =>
      UnplugRb(up, Bin(l, n, red, s));
      RbBh(s, Bh(l));
  }

  // ---------- The defect during an insertion ----------

  /** Everything is balanced except that the red root of f may have a red parent, or be the root of the tree. */
  predicate RedDefect(c: Path, f: Shape) {
    IsRed(f) && Rb(f, Bh(f)) && RbPath(c, Bh(f))
  }

  lemma DefectHasGrandparent(c: Path, f: Shape)
    requires RedDefect(c, f) && !c.Top? && c.red
    ensures !c.up.Top? && !c.up.red && !IsRed(c.sib)
  {
  }

  function Blackened(s: Shape): Shape {
    if s.Bin? then s.(red := false) else s
  }

  /** The path c with another colour and sibling at its lowest node. */
  function Relabel(c: Path, red: bool, sib: Shape): Path
    requires !c.Top?
  {
    if c.InL? then InL(c.up, c.n, red, sib) else InR(c.up, c.n, red, sib)
  }

  /** Red uncle: recolouring moves the defect two levels up. */
  lemma RecolourStep(c: Path, f: Shape)
    requires RedDefect(c, f) && !c.Top? && c.red && !c.up.Top? && IsRed(c.up.sib)
    ensures RedDefect(c.up.up, Up(Relabel(c.up, true, Blackened(c.up.sib)), Blackened(Up(c, f))))
  {
    assert RbPath(c.up, Bh(f)) && RbPath(c.up.up, Bh(f) + 1);
    var f' := Up(Relabel(c.up, true, Blackened(c.up.sib)), Blackened(Up(c, f)));
    RbBh(c.sib, Bh(f));
    RbBh(c.up.sib, Bh(f));
    RbBh(f', Bh(f) + 1);
  }

  /** An inner grandchild is rotated to the outside. */
  lemma InnerStep(c: Path, f: Shape)
    requires RedDefect(c, f) && !c.Top? && c.red
    ensures c.InR? ==> RedDefect(InL(c.up, f.n, true, f.r), Bin(c.sib, c.n, true, f.l))
    ensures c.InL? ==> RedDefect(InR(c.up, f.n, true, f.l), Bin(f.r, c.n, true, c.sib))
  {
    RbBh(c.sib, Bh(f));
    RbBh(f.l, Bh(f));
    RbBh(f.r, Bh(f));
  }

  /** Black uncle: after the rotation at the grandparent the red node has a black parent. */
  lemma OuterStep(c: Path, f: Shape)
    requires RedDefect(c, f) && !c.Top? && c.red && !c.up.Top? && !IsRed(c.up.sib)
    ensures c.InL? && c.up.InL? ==> RedDefect(InL(c.up.up, c.n, false, Bin(c.sib, c.up.n, true, c.up.sib)), f)
    ensures c.InR? && c.up.InR? ==> RedDefect(InR(c.up.up, c.n, false, Bin(c.up.sib, c.up.n, true, c.sib)), f)
  {
    assert RbPath(c.up, Bh(f)) && RbPath(c.up.up, Bh(f) + 1);
  }

  lemma DefectGone(c: Path, f: Shape)
    requires RedDefect(c, f) && (c.Top? || !c.red)
    ensures RedBlack(Blackened(Plug(c, f)))
    ensures !c.Top? ==> RedBlack(Plug(c, f))
  {
    if c.Top? {
      RbBh(Blackened(f), Bh(f) + 1);
    } else {
      PlugRb(c, f, Bh(f));
    }
  }

  // ---------- The defect during a removal ----------

  /** Every search path through the hole of c misses one black node, unless the root of f is red and can pay for it. */
  predicate BlackDefect(c: Path, f: Shape) {
    && RbPath(c, Bh(f) + 1)
    && if IsRed(f) then Rb(f.l, Bh(f)) && Rb(f.r, Bh(f)) else Rb(f, Bh(f))
  }

  function OnlyChild(s: Shape): Shape
    requires s.Bin? && (s.l.Nil? || s.r.Nil?)
  {
    if s.l.Nil? then s.r else s.l
  }

  /** Cutting out a red node keeps the balance; cutting out a black one leaves the defect at its child. */
  lemma CutStep(c: Path, s: Shape)
    requires s.Bin? && (s.l.Nil? || s.r.Nil?) && Rb(s, Bh(s)) && RbPath(c, Bh(s)) && Fits(c, s)
    ensures s.red ==> RedBlack(Plug(c, OnlyChild(s)))
    ensures !s.red ==> BlackDefect(c, OnlyChild(s))
  {
    if s.red {
      RbBh(s.r, Bh(s));
      PlugRb(c, OnlyChild(s), Bh(s));
    } else {
      RbBh(s.r, Bh(s) - 1);
    }
  }

  /** Balance does not depend on which node sits at a position of the path. */
  lemma RbPathRename(c: Path, x: Scn, y: Scn, red: bool, l: Shape, d: Path, h: nat)
    ensures RbPath(Append(InR(c, x, red, l), d), h) == RbPath(Append(InR(c, y, red, l), d), h)
  {
    if !d.Top? {
      RbPathRename(c, x, y, red, l, d.up, if d.red then h else h + 1);
    }
  }

  lemma SiblingExists(c: Path, f: Shape)
    requires BlackDefect(c, f) && !c.Top?
    ensures c.sib.Bin?
  {
  }

  /** Red sibling: rotating it above the parent gives the hole a black sibling and a red parent. */
  lemma RedSiblingStep(c: Path, f: Shape)
    requires BlackDefect(c, f) && !IsRed(f) && !c.Top? && IsRed(c.sib)
    ensures !c.red && !IsRed(c.sib.l) && !IsRed(c.sib.r) && c.sib.l.Bin? && c.sib.r.Bin?
    ensures c.InL? ==> BlackDefect(InL(InL(c.up, c.sib.n, false, c.sib.r), c.n, true, c.sib.l), f)
    ensures c.InR? ==> BlackDefect(InR(InR(c.up, c.sib.n, false, c.sib.l), c.n, true, c.sib.r), f)
  {
    assert Rb(c.sib.l, Bh(f) + 1) && Rb(c.sib.r, Bh(f) + 1);
  }

  /** Black nephews: the sibling turns red and the defect moves up. */
  lemma BlackNephewsStep(c: Path, f: Shape)
    requires BlackDefect(c, f) && !IsRed(f) && !c.Top? && c.sib.Bin?
    requires !IsRed(c.sib) && !IsRed(c.sib.l) && !IsRed(c.sib.r)
    ensures BlackDefect(c.up, Up(Relabel(c, c.red, c.sib.(red := true)), f))
  {
    RbBh(c.sib.l, Bh(f));
    RbBh(c.sib.r, Bh(f));
  }

  /** Only the inner nephew is red: it is rotated to become the sibling. */
  lemma InnerNephewStep(c: Path, f: Shape)
    requires BlackDefect(c, f) && !IsRed(f) && !c.Top? && c.sib.Bin? && !IsRed(c.sib)
    ensures c.InL? && IsRed(c.sib.l) && !IsRed(c.sib.r) ==>
      var sib := Bin(c.sib.l.l, c.sib.l.n, false, Bin(c.sib.l.r, c.sib.n, true, c.sib.r));
      BlackDefect(InL(c.up, c.n, c.red, sib), f)
    ensures c.InR? && IsRed(c.sib.r) && !IsRed(c.sib.l) ==>
      var sib := Bin(Bin(c.sib.l, c.sib.n, true, c.sib.r.l), c.sib.r.n, false, c.sib.r.r);
      BlackDefect(InR(c.up, c.n, c.red, sib), f)
  {
    assert Rb(c.sib.l, Bh(f)) && Rb(c.sib.r, Bh(f));
  }

  /** The outer nephew is red: one rotation at the parent restores every condition. */
  lemma OuterNephewStep(c: Path, f: Shape)
    requires BlackDefect(c, f) && !IsRed(f) && !c.Top? && c.sib.Bin? && !IsRed(c.sib)
    ensures c.InL? && IsRed(c.sib.r) ==>
      RedBlack(Plug(c.up, Bin(Bin(f, c.n, false, c.sib.l), c.sib.n, c.red, Blackened(c.sib.r))))
    ensures c.InR? && IsRed(c.sib.l) ==>
      RedBlack(Plug(c.up, Bin(Blackened(c.sib.l), c.sib.n, c.red, Bin(c.sib.r, c.n, false, f))))
  {
    var h := Bh(f) + 1;
    assert Rb(c.sib.l, Bh(f)) && Rb(c.sib.r, Bh(f));
    if c.InL? && IsRed(c.sib.r) {
      PlugRb(c.up, Bin(Bin(f, c.n, false, c.sib.l), c.sib.n, c.red, Blackened(c.sib.r)), if c.red then h else h + 1);
    } else if c.InR? && IsRed(c.sib.l) {
      PlugRb(c.up, Bin(Blackened(c.sib.l), c.sib.n, c.red, Bin(c.sib.r, c.n, false, f)), if c.red then h else h + 1);
    }
  }

  lemma BlackDefectGone(c: Path, f: Shape)
    requires BlackDefect(c, f) && (IsRed(f) || c.Top?)
    ensures RedBlack(Plug(c, Blackened(f)))
  {
    if IsRed(f) {
      PlugRb(c, Blackened(f), Bh(f) + 1);
    }
  }

  // ---------- The conditions in the words of the header ----------

  predicate NoRedRed(s: Shape) {
    match s
    case Nil => true
    case Bin(l, _, red, r) => NoRedRed(l) && NoRedRed(r) && (red ==> !IsRed(l) && !IsRed(r))
  }

  /** The numbers of black nodes met on the search paths from the root to a leaf. */
  function BlackCounts(s: Shape): set<nat> {
    match s
    case Nil => {0}
    case Bin(l, _, red, r) =>
      set k | k in BlackCounts(l) + BlackCounts(r) :: if red then k else k + 1
  }

  lemma BlackCountsStep(s: Shape)
    requires s.Bin?
    ensures forall k <- BlackCounts(s.l) :: (if s.red then k else k + 1) in BlackCounts(s)
    ensures forall k <- BlackCounts(s.r) :: (if s.red then k else k + 1) in BlackCounts(s)
    ensures forall k <- BlackCounts(s) :: (if s.red then k else k - 1) in BlackCounts(s.l) + BlackCounts(s.r)
  {
    forall k | k in BlackCounts(s.l) || k in BlackCounts(s.r)
      ensures (if s.red then k else k + 1) in BlackCounts(s)
    {
      assert k in BlackCounts(s.l) + BlackCounts(s.r);
    }
  }

  /** Balance is exactly: red nodes have black children, and every search path meets h black nodes. */
  lemma {:induction false} RbMeaning(s: Shape, h: nat)
    ensures Rb(s, h) <==> NoRedRed(s) && BlackCounts(s) != {} && forall k <- BlackCounts(s) :: k == h
  {
    match s
    case Nil => assert 0 in BlackCounts(s);
    case Bin(l, _, red, r) =>
      hide BlackCounts;
      BlackCountsStep(s);
      var h' := if red || h == 0 then h else h - 1;
      RbMeaning(l, h');
      RbMeaning(r, h');
      BlackCountsNonempty(l);
      BlackCountsNonempty(r);
      var k, j :| k in BlackCounts(l) && j in BlackCounts(r);
      assert (if red then k else k + 1) in BlackCounts(s) && (if red then j else j + 1) in BlackCounts(s);
  }

  lemma BlackCountsNonempty(s: Shape)
    ensures BlackCounts(s) != {}
  {
    if s.Bin? {
      BlackCountsNonempty(s.l);
      BlackCountsStep(s);
      var k :| k in BlackCounts(s.l);
      assert (if s.red then k else k + 1) in BlackCounts(s);
    } else {
      assert 0 in BlackCounts(s);
    }
  }

  // ---------- Height ----------

  function Height(s: Shape): nat {
    match s
    case Nil => 0
    case Bin(l, _, _, r) => 1 + Max(Height(l), Height(r))
  }

  function Pow2(k: nat): nat {
    if k == 0 then 1 else 2 * Pow2(k - 1)
  }

  lemma Pow2Sum(a: nat, b: nat)
    ensures Pow2(a + b) == Pow2(a) * Pow2(b)
  {
    if a > 0 {
      Pow2Sum(a - 1, b);
    }
  }

  lemma Pow2Monotone(a: nat, b: nat)
    requires a <= b
    ensures Pow2(a) <= Pow2(b)
  {
    if a < b {
      Pow2Monotone(a, b - 1);
    }
  }

  lemma {:induction false} RbSize(s: Shape, h: nat)
    requires Rb(s, h)
    ensures Height(s) <= 2 * h + (if IsRed(s) then 1 else 0)
    ensures Pow2(h) <= |InOrder(s)| + 1
  {
    match s
    case Nil =>
    case Bin(l, _, red, r) =>
      RbSize(l, if red then h else h - 1);
      RbSize(r, if red then h else h - 1);
  }

  /** The height of a red-black tree with n nodes is at most 2 lg (n + 1). */
  lemma HeightBound(s: Shape)
    requires RedBlack(s)
    ensures Pow2(Height(s)) <= (|InOrder(s)| + 1) * (|InOrder(s)| + 1)
  {
    RbSize(s, Bh(s));
    Pow2Monotone(Height(s), 2 * Bh(s));
    Pow2Sum(Bh(s), Bh(s));
    Square(Pow2(Bh(s)), |InOrder(s)| + 1);
  }

  lemma Square(a: nat, b: nat)
    requires a <= b
    ensures a * a <= b * b
  {
    assert a * a <= a * b;
  }
}
