/** Splay trees as values: the shapes that the top-down splay of sys/tree.h takes apart and puts together again. */
module SplayShape {
  import opened Basics

  /** A node with its SPLAY_ENTRY fields. */
  class Node {
    const key: int
    var left: Node?
    var right: Node?

    constructor (key: int)
      ensures this.key == key && left == null && right == null
    {
      this.key := key;
      left, right := null, null;
    }
  }

  datatype Entry = Entry(left: Node?, right: Node?)

  type Links = map<Node, Entry>

  datatype Shape = Nil | Bin(l: Shape, n: Node, r: Shape)

  /** The trees of smaller keys split off so far: along right links, the last one linked first. */
  datatype Lefts = NoLeft | Left(up: Lefts, l: Shape, n: Node)

  /** The trees of larger keys split off so far: along left links, the last one linked first. */
  datatype Rights = NoRight | Right(up: Rights, n: Node, r: Shape)

  function Root(s: Shape): Node? {
    if s.Nil? then null else s.n
  }

  function Nodes(s: Shape): set<Node> {
    match s
    case Nil => {}
    case Bin(l, n, r) => Nodes(l) + {n} + Nodes(r)
  }

  function InOrder(s: Shape): seq<Node> {
    match s
    case Nil => []
    case Bin(l, n, r) => InOrder(l) + [n] + InOrder(r)
  }

  function LeftNodes(a: Lefts): set<Node> {
    match a
    case NoLeft => {}
    case Left(up, l, n) => LeftNodes(up) + Nodes(l) + {n}
  }

  function RightNodes(b: Rights): set<Node> {
    match b
    case NoRight => {}
    case Right(up, n, r) => RightNodes(up) + Nodes(r) + {n}
  }

  function LeftOrder(a: Lefts): seq<Node> {
    match a
    case NoLeft => []
    case Left(up, l, n) => LeftOrder(up) + InOrder(l) + [n]
  }

  function RightOrder(b: Rights): seq<Node> {
    match b
    case NoRight => []
    case Right(up, n, r) => [n] + InOrder(r) + RightOrder(up)
  }

  /** The left part with x hung below its last node, and the right part likewise. */
  function JoinLeft(a: Lefts, x: Shape): Shape {
    match a
    case NoLeft => x
    case Left(up, l, n) => JoinLeft(up, Bin(l, n, x))
  }

  function JoinRight(b: Rights, x: Shape): Shape {
    match b
    case NoRight => x
    case Right(up, n, r) => JoinRight(up, Bin(x, n, r))
  }

  lemma {:induction false} JoinLeftOrder(a: Lefts, x: Shape)
    ensures InOrder(JoinLeft(a, x)) == LeftOrder(a) + InOrder(x)
    ensures Nodes(JoinLeft(a, x)) == LeftNodes(a) + Nodes(x)
  {
    match a
    case NoLeft =>
    case Left(up, l, n) => JoinLeftOrder(up, Bin(l, n, x));
  }

  lemma {:induction false} JoinRightOrder(b: Rights, x: Shape)
    ensures InOrder(JoinRight(b, x)) == InOrder(x) + RightOrder(b)
    ensures Nodes(JoinRight(b, x)) == RightNodes(b) + Nodes(x)
  {
    match b
    case NoRight =>
    case Right(up, n, r) =>
      JoinRightOrder(up, Bin(x, n, r));
      Associative(InOrder(x) + [n], InOrder(r), RightOrder(up));
      Associative(InOrder(x), [n], InOrder(r) + RightOrder(up));
      Associative([n], InOrder(r), RightOrder(up));
  }

  // ---------- Distinct positions hold distinct nodes ----------

  predicate Once(s: Shape) {
    match s
    case Nil => true
    case Bin(l, n, r) => Once(l) && Once(r) && n !in Nodes(l) + Nodes(r) && Nodes(l) !! Nodes(r)
  }

  predicate LeftOnce(a: Lefts) {
    match a
    case NoLeft => true
    case Left(up, l, n) => LeftOnce(up) && Once(l) && n !in LeftNodes(up) + Nodes(l) && LeftNodes(up) !! Nodes(l)
  }

  predicate RightOnce(b: Rights) {
    match b
    case NoRight => true
    case Right(up, n, r) => RightOnce(up) && Once(r) && n !in RightNodes(up) + Nodes(r) && RightNodes(up) !! Nodes(r)
  }

  predicate Apart(h: Node, a: Lefts, s: Shape, b: Rights) {
    && LeftOnce(a) && Once(s) && RightOnce(b)
    && LeftNodes(a) !! Nodes(s) && LeftNodes(a) !! RightNodes(b) && Nodes(s) !! RightNodes(b)
    && h !in LeftNodes(a) + Nodes(s) + RightNodes(b)
  }

  // ---------- Shapes and pointers ----------

  predicate Rep(m: Links, s: Shape) {
    match s
    case Nil => true
    case Bin(l, n, r) => n in m && m[n] == Entry(Root(l), Root(r)) && Rep(m, l) && Rep(m, r)
  }

  /** The chain of the left part up to, not including, the right link of its last node. */
  predicate RepLeft(m: Links, h: Node, a: Lefts) {
    match a
    case NoLeft => true
    case Left(up, l, n) =>
      n in m && m[n].left == Root(l) && Rep(m, l) && RepLeft(m, h, up) && LastLeft(h, up) in m &&
          m[LastLeft(h, up)].right == n
  }

  predicate RepRight(m: Links, h: Node, b: Rights) {
    match b
    case NoRight => true
    case Right(up, n, r) =>
      n in m && m[n].right == Root(r) && Rep(m, r) && RepRight(m, h, up) && LastRight(h, up) in m &&
          m[LastRight(h, up)].left == n
  }

  /** The node whose right link the next smaller tree is hung on; h is the header node of the splay. */
  function LastLeft(h: Node, a: Lefts): Node {
    if a.NoLeft? then h else a.n
  }

  function LastRight(h: Node, b: Rights): Node {
    if b.NoRight? then h else b.n
  }

  predicate State(m: Links, h: Node, a: Lefts, s: Shape, b: Rights) {
    Apart(h, a, s, b) && h in m && Rep(m, s) && RepLeft(m, h, a) && RepRight(m, h, b)
  }

  predicate SameOn(m: Links, m': Links, xs: set<Node>) {
    forall x <- xs :: x in m ==> x in m' && m'[x] == m[x]
  }

  lemma RepFrame(m: Links, m': Links, s: Shape)
    requires Rep(m, s) && SameOn(m, m', Nodes(s))
    ensures Rep(m', s)
  {
    match s
    case Nil =>
    case Bin(l, n, r) =>
      RepFrame(m, m', l);
      RepFrame(m, m', r);
  }

  /** Only right links of the last node and of the header may differ on the left part; see RepLeft. */
  lemma RepLeftFrame(m: Links, m': Links, h: Node, a: Lefts)
    requires RepLeft(m, h, a) && LeftOnce(a) && h !in LeftNodes(a)
    requires SameOn(m, m', LeftNodes(a) - {LastLeft(h, a)})
    requires a.Left? ==> a.n in m' && m'[a.n].left == m[a.n].left && h in m && h in m' && m'[h].right == m[h].right
    ensures RepLeft(m', h, a)
  {
    match a
    case NoLeft =>
    case Left(up, l, n) =>
      RepFrame(m, m', l);
      RepLeftFrame(m, m', h, up);
  }

  lemma RepRightFrame(m: Links, m': Links, h: Node, b: Rights)
    requires RepRight(m, h, b) && RightOnce(b) && h !in RightNodes(b)
    requires SameOn(m, m', RightNodes(b) - {LastRight(h, b)})
    requires b.Right? ==> b.n in m' && m'[b.n].right == m[b.n].right && h in m && h in m' && m'[h].left == m[h].left
    ensures RepRight(m', h, b)
  {
    match b
    case NoRight =>
    case Right(up, n, r) =>
      RepFrame(m, m', r);
      RepRightFrame(m, m', h, up);
  }

  // ---------- The steps ----------

  function SetLeft(m: Links, x: Node, y: Node?): Links
    requires x in m
  {
    m[x := m[x].(left := y)]
  }

  function SetRight(m: Links, x: Node, y: Node?): Links
    requires x in m
  {
    m[x := m[x].(right := y)]
  }

  lemma RotateRightTree(m: Links, p: Shape, y: Node, q: Shape, x: Node, r: Shape)
    requires Rep(m, Bin(Bin(p, y, q), x, r)) && Once(Bin(Bin(p, y, q), x, r))
    ensures x in m && y in m && Once(Bin(p, y, Bin(q, x, r)))
    ensures Rep(SetRight(SetLeft(m, x, m[y].right), y, x), Bin(p, y, Bin(q, x, r)))
  {
    assert Rep(m, Bin(p, y, q)) && Once(Bin(p, y, q)) && Nodes(Bin(p, y, q)) == Nodes(p) + {y} + Nodes(q);
    var m' := SetRight(SetLeft(m, x, m[y].right), y, x);
    RepFrame(m, m', p);
    RepFrame(m, m', q);
    RepFrame(m, m', r);
  }

  lemma RotateLeftTree(m: Links, p: Shape, x: Node, q: Shape, y: Node, r: Shape)
    requires Rep(m, Bin(p, x, Bin(q, y, r))) && Once(Bin(p, x, Bin(q, y, r)))
    ensures x in m && y in m && Once(Bin(Bin(p, x, q), y, r))
    ensures Rep(SetLeft(SetRight(m, x, m[y].left), y, x), Bin(Bin(p, x, q), y, r))
  {
    assert Rep(m, Bin(q, y, r)) && Once(Bin(q, y, r)) && Nodes(Bin(q, y, r)) == Nodes(q) + {y} + Nodes(r);
    var m' := SetLeft(SetRight(m, x, m[y].left), y, x);
    RepFrame(m, m', p);
    RepFrame(m, m', q);
    RepFrame(m, m', r);
  }

  /** The root may be rotated as long as its nodes, order and links are kept. */
  lemma RotateStep(m: Links, m': Links, h: Node, a: Lefts, s: Shape, s': Shape, b: Rights)
    requires State(m, h, a, s, b) && Rep(m', s') && Once(s') && Nodes(s') == Nodes(s) && h in m'
    requires forall z <- m.Keys - Nodes(s) :: z in m' && m'[z] == m[z]
    ensures State(m', h, a, s', b)
  {
    RepLeftIn(m, h, a);
    RepRightIn(m, h, b);
    RepLeftFrame(m, m', h, a);
    RepRightFrame(m, m', h, b);
  }

  lemma RepLeftIn(m: Links, h: Node, a: Lefts)
    requires RepLeft(m, h, a)
    ensures a.Left? ==> a.n in m
  {
  }

  lemma RepRightIn(m: Links, h: Node, b: Rights)
    requires RepRight(m, h, b)
    ensures b.Right? ==> b.n in m
  {
  }

  /** SPLAY_LINKLEFT: the root and its right subtree join the right part. */
  lemma {:induction false} LinkLeftStep(m: Links, h: Node, a: Lefts, p: Shape, x: Node, q: Shape, b: Rights)
    requires State(m, h, a, Bin(p, x, q), b)
    ensures LastRight(h, b) in m
    ensures State(SetLeft(m, LastRight(h, b), x), h, a, p, Right(b, x, q))
  {
    var m' := SetLeft(m, LastRight(h, b), x);
    RepFrame(m, m', p);
    RepFrame(m, m', q);
    RepLeftFrame(m, m', h, a);
    RepRightFrame(m, m', h, b);
  }

  lemma {:induction false} LinkRightStep(m: Links, h: Node, a: Lefts, p: Shape, x: Node, q: Shape, b: Rights)
    requires State(m, h, a, Bin(p, x, q), b)
    ensures LastLeft(h, a) in m
    ensures State(SetRight(m, LastLeft(h, a), x), h, Left(a, p, x), q, b)
  {
    var m' := SetRight(m, LastLeft(h, a), x);
    RepFrame(m, m', p);
    RepFrame(m, m', q);
    RepLeftFrame(m, m', h, a);
    RepRightFrame(m, m', h, b);
  }

  // ---------- SPLAY_ASSEMBLE ----------

  lemma JoinLeftRep(m: Links, h: Node, a: Lefts, s: Shape)
    requires RepLeft(m, h, a) && Rep(m, s) && LastLeft(h, a) in m && m[LastLeft(h, a)].right == Root(s)
    ensures h in m && Rep(m, JoinLeft(a, s)) && m[h].right == Root(JoinLeft(a, s))
  {
    match a
    case NoLeft =>
    case Left(up, l, n) => JoinLeftRep(m, h, up, Bin(l, n, s));
  }

  lemma JoinRightRep(m: Links, h: Node, b: Rights, s: Shape)
    requires RepRight(m, h, b) && Rep(m, s) && LastRight(h, b) in m && m[LastRight(h, b)].left == Root(s)
    ensures h in m && Rep(m, JoinRight(b, s)) && m[h].left == Root(JoinRight(b, s))
  {
    match b
    case NoRight =>
    case Right(up, n, r) => JoinRightRep(m, h, up, Bin(s, n, r));
  }

  /** The links after the last nodes of both parts have been closed with the subtrees of the root. */
  function Closed(m: Links, h: Node, a: Lefts, x: Node, b: Rights): Links
    requires x in m && LastLeft(h, a) in m && LastRight(h, b) in m
  {
    SetLeft(SetRight(m, LastLeft(h, a), m[x].left), LastRight(h, b), m[x].right)
  }

  lemma {:induction false} CloseStep(m: Links, h: Node, a: Lefts, p: Shape, x: Node, q: Shape, b: Rights)
    requires State(m, h, a, Bin(p, x, q), b)
    ensures x in m && LastLeft(h, a) in m && LastRight(h, b) in m
    ensures Rep(Closed(m, h, a, x, b), JoinLeft(a, p)) && Rep(Closed(m, h, a, x, b), JoinRight(b, q))
    ensures h in Closed(m, h, a, x, b) && x in Closed(m, h, a, x, b)
    ensures Closed(m, h, a, x, b)[h] == Entry(Root(JoinRight(b, q)), Root(JoinLeft(a, p)))
  {
    RepLeftIn(m, h, a);
    RepRightIn(m, h, b);
    var m' := Closed(m, h, a, x, b);
    RepFrame(m, m', p);
    RepFrame(m, m', q);
    RepLeftFrame(m, m', h, a);
    RepRightFrame(m, m', h, b);
    JoinLeftRep(m', h, a, p);
    JoinRightRep(m', h, b, q);
  }

  lemma {:induction false} AssembleStep(m: Links, h: Node, a: Lefts, p: Shape, x: Node, q: Shape, b: Rights)
    requires State(m, h, a, Bin(p, x, q), b)
    ensures x in m && LastLeft(h, a) in m && LastRight(h, b) in m && h in m
    ensures var m1 := Closed(m, h, a, x, b);
            Rep(SetRight(SetLeft(m1, x, m1[h].right), x, m1[h].left), Assembly(a, Bin(p, x, q), b))
  {
    hide RepLeft, RepRight, JoinLeft, JoinRight, InOrder, LeftOnce, RightOnce, Closed, LeftOrder, RightOrder;
    CloseStep(m, h, a, p, x, q, b);
    var m1 := Closed(m, h, a, x, b);
    var m2 := SetRight(SetLeft(m1, x, m1[h].right), x, m1[h].left);
    JoinLeftOrder(a, p);
    JoinRightOrder(b, q);
    RepFrame(m1, m2, JoinLeft(a, p));
    RepFrame(m1, m2, JoinRight(b, q));
  }

  // ---------- Order ----------

  predicate Below(xs: set<Node>, ys: set<Node>) {
    forall x <- xs, y <- ys :: x.key < y.key
  }

  predicate Bst(s: Shape) {
    match s
    case Nil => true
    case Bin(l, n, r) => Bst(l) && Bst(r) && Below(Nodes(l), {n}) && Below({n}, Nodes(r)) && Below(Nodes(l), Nodes(r))
  }

  predicate LeftBst(a: Lefts) {
    match a
    case NoLeft => true
    case Left(up, l, n) =>
      LeftBst(up) && Bst(l) && Below(LeftNodes(up), Nodes(l)) && Below(LeftNodes(up), {n}) && Below(Nodes(l), {n})
  }

  predicate RightBst(b: Rights) {
    match b
    case NoRight => true
    case Right(up, n, r) =>
      RightBst(up) && Bst(r) && Below({n}, Nodes(r)) && Below({n}, RightNodes(up)) && Below(Nodes(r), RightNodes(up))
  }

  /** The three parts are search trees, and their keys follow each other; the key k that is splayed for separates
      the left part from the right part. */
  predicate Ordered(k: int, a: Lefts, s: Shape, b: Rights) {
    && LeftBst(a) && Bst(s) && RightBst(b)
    && Below(LeftNodes(a), Nodes(s)) && Below(LeftNodes(a), RightNodes(b)) && Below(Nodes(s), RightNodes(b))
    && (forall x <- LeftNodes(a) :: x.key < k) && (forall x <- RightNodes(b) :: k < x.key)
  }

  lemma BstOnce(s: Shape)
    requires Bst(s)
    ensures Once(s)
  {
    if s.Bin? {
      BelowDisjoint(Nodes(s.l), {s.n});
      BelowDisjoint({s.n}, Nodes(s.r));
      BelowDisjoint(Nodes(s.l), Nodes(s.r));
    }
  }

  lemma BelowDisjoint(xs: set<Node>, ys: set<Node>)
    requires Below(xs, ys)
    ensures xs !! ys
  {
    forall x | x in xs && x in ys ensures false {}
  }

  lemma BelowUnion(xs: set<Node>, ys: set<Node>, zs: set<Node>)
    ensures Below(xs + ys, zs) <==> Below(xs, zs) && Below(ys, zs)
    ensures Below(zs, xs + ys) <==> Below(zs, xs) && Below(zs, ys)
  {
    if Below(xs + ys, zs) {
      BelowWithin(xs + ys, zs, xs, zs);
      BelowWithin(xs + ys, zs, ys, zs);
    }
    if Below(zs, xs + ys) {
      BelowWithin(zs, xs + ys, zs, xs);
      BelowWithin(zs, xs + ys, zs, ys);
    }
  }

  lemma {:induction false} RotatedBst(p: Shape, y: Node, q: Shape, x: Node, r: Shape)
    ensures Bst(Bin(Bin(p, y, q), x, r)) <==> Bst(Bin(p, y, Bin(q, x, r)))
    ensures InOrder(Bin(Bin(p, y, q), x, r)) == InOrder(Bin(p, y, Bin(q, x, r)))
    ensures Nodes(Bin(Bin(p, y, q), x, r)) == Nodes(Bin(p, y, Bin(q, x, r)))
  {
    hide Below;
    var ps, qs, rs := Nodes(p), Nodes(q), Nodes(r);
    BelowUnion(ps + {y}, qs, {x});
    BelowUnion(ps, {y}, {x});
    BelowUnion(ps + {y}, qs, rs);
    BelowUnion(ps, {y}, rs);
    BelowUnion(qs + {x}, rs, ps);
    BelowUnion(qs, {x}, ps);
    BelowUnion(qs + {x}, rs, {y});
    BelowUnion(qs, {x}, {y});
    RotatedOrder(InOrder(p), [y], InOrder(q), [x], InOrder(r));
  }

  lemma RotatedOrder(p: seq<Node>, y: seq<Node>, q: seq<Node>, x: seq<Node>, r: seq<Node>)
    ensures (p + y + q) + x + r == p + y + (q + x + r)
  {
  }

  /** The nodes of the three parts in ascending order. */
  function Order(a: Lefts, s: Shape, b: Rights): seq<Node> {
    LeftOrder(a) + InOrder(s) + RightOrder(b)
  }

  lemma LinkLeftOrdered(k: int, a: Lefts, p: Shape, x: Node, q: Shape, b: Rights)
    requires Ordered(k, a, Bin(p, x, q), b) && k < x.key
    ensures Ordered(k, a, p, Right(b, x, q))
  {
    var s := Bin(p, x, q);
    BelowWithin(Nodes(s), RightNodes(b), {x}, RightNodes(b));
    BelowWithin(Nodes(s), RightNodes(b), Nodes(q), RightNodes(b));
    BelowWithin(LeftNodes(a), Nodes(s), LeftNodes(a), Nodes(p));
    assert Below(Nodes(p), RightNodes(Right(b, x, q)));
    assert Below(LeftNodes(a), RightNodes(Right(b, x, q)));
  }

  lemma LinkRightOrdered(k: int, a: Lefts, p: Shape, x: Node, q: Shape, b: Rights)
    requires Ordered(k, a, Bin(p, x, q), b) && x.key < k
    ensures Ordered(k, Left(a, p, x), q, b)
  {
    var s := Bin(p, x, q);
    BelowWithin(LeftNodes(a), Nodes(s), LeftNodes(a), {x});
    BelowWithin(LeftNodes(a), Nodes(s), LeftNodes(a), Nodes(p));
    BelowWithin(Nodes(s), RightNodes(b), Nodes(q), RightNodes(b));
    assert Below(LeftNodes(Left(a, p, x)), Nodes(q));
    assert Below(LeftNodes(Left(a, p, x)), RightNodes(b));
  }

  lemma BelowWithin(xs: set<Node>, ys: set<Node>, xs': set<Node>, ys': set<Node>)
    requires Below(xs, ys) && xs' <= xs && ys' <= ys
    ensures Below(xs', ys')
  {
  }

  lemma LinkOrder(a: Lefts, p: Shape, x: Node, q: Shape, b: Rights)
    ensures Order(a, p, Right(b, x, q)) == Order(a, Bin(p, x, q), b)
    ensures Order(Left(a, p, x), q, b) == Order(a, Bin(p, x, q), b)
  {
    Regroup(LeftOrder(a), InOrder(p), [x], InOrder(q), RightOrder(b));
  }

  lemma JoinLeftBst(a: Lefts, s: Shape)
    requires LeftBst(a) && Bst(s) && Below(LeftNodes(a), Nodes(s))
    ensures Bst(JoinLeft(a, s))
  {
    match a
    case NoLeft =>
    case Left(up, l, n) =>
      assert n in LeftNodes(a) && Nodes(l) <= LeftNodes(a);
      JoinLeftBst(up, Bin(l, n, s));
  }

  lemma JoinRightBst(b: Rights, s: Shape)
    requires RightBst(b) && Bst(s) && Below(Nodes(s), RightNodes(b))
    ensures Bst(JoinRight(b, s))
  {
    match b
    case NoRight =>
    case Right(up, n, r) =>
      assert n in RightNodes(b) && Nodes(r) <= RightNodes(b);
      JoinRightBst(up, Bin(s, n, r));
  }

  function Assembly(a: Lefts, s: Shape, b: Rights): Shape
    requires s.Bin?
  {
    Bin(JoinLeft(a, s.l), s.n, JoinRight(b, s.r))
  }

  lemma AssemblyOrder(a: Lefts, s: Shape, b: Rights)
    requires s.Bin?
    ensures InOrder(Assembly(a, s, b)) == Order(a, s, b) && Root(Assembly(a, s, b)) == s.n
    ensures Nodes(Assembly(a, s, b)) == LeftNodes(a) + Nodes(s) + RightNodes(b)
  {
    JoinLeftOrder(a, s.l);
    JoinRightOrder(b, s.r);
    Regroup(LeftOrder(a), InOrder(s.l), [s.n], InOrder(s.r), RightOrder(b));
  }

  /** A rotation keeps the middle part in order. */
  lemma RotatedOrdered(k: int, a: Lefts, p: Shape, y: Node, q: Shape, x: Node, r: Shape, b: Rights)
    ensures Ordered(k, a, Bin(Bin(p, y, q), x, r), b) <==> Ordered(k, a, Bin(p, y, Bin(q, x, r)), b)
    ensures Order(a, Bin(Bin(p, y, q), x, r), b) == Order(a, Bin(p, y, Bin(q, x, r)), b)
    ensures |InOrder(Bin(Bin(p, y, q), x, r))| == |InOrder(Bin(p, y, Bin(q, x, r)))|
  {
    hide Bst, InOrder, Nodes, Below;
    RotatedBst(p, y, q, x, r);
  }

  lemma Shorter(p: Shape, x: Node, q: Shape)
    ensures |InOrder(p)| < |InOrder(Bin(p, x, q))| && |InOrder(q)| < |InOrder(Bin(p, x, q))|
  {
  }

  /** The assembled tree is a search tree. */
  lemma AssemblyBst(k: int, a: Lefts, s: Shape, b: Rights)
    requires Ordered(k, a, s, b) && s.Bin?
    ensures Bst(Assembly(a, s, b))
  {
    assert s.n in Nodes(s) && Nodes(s.l) <= Nodes(s) && Nodes(s.r) <= Nodes(s);
    JoinLeftBst(a, s.l);
    JoinRightBst(b, s.r);
    assert Nodes(JoinLeft(a, s.l)) == LeftNodes(a) + Nodes(s.l) by { JoinLeftOrder(a, s.l); }
    assert Nodes(JoinRight(b, s.r)) == RightNodes(b) + Nodes(s.r) by { JoinRightOrder(b, s.r); }
  }

  /** When the search for k ended at the root of s, the assembled root separates the smaller from the larger keys. */
  lemma AssemblySides(k: int, a: Lefts, s: Shape, b: Rights)
    requires Ordered(k, a, s, b) && s.Bin?
    requires k == s.n.key || (k < s.n.key && s.l.Nil?) || (s.n.key < k && s.r.Nil?)
    ensures Separates(k, Assembly(a, s, b))
  {
    assert Nodes(JoinLeft(a, s.l)) == LeftNodes(a) + Nodes(s.l) by { JoinLeftOrder(a, s.l); }
    assert Nodes(JoinRight(b, s.r)) == RightNodes(b) + Nodes(s.r) by { JoinRightOrder(b, s.r); }
  }

  /** Every key to the left of the root is below k, every key to the right is above k. */
  predicate Separates(k: int, s: Shape) {
    s.Bin? && (forall z <- Nodes(s.l) :: z.key < k) && (forall z <- Nodes(s.r) :: k < z.key)
  }

  // ---------- Insertion above the root and removal of the root ----------

  /** The new node y takes the smaller, or the larger, subtree of the root x and puts x on its other side. */
  lemma {:induction false} InsertSmaller(m: Links, m': Links, l: Shape, x: Node, r: Shape, y: Node)
    requires Rep(m, Bin(l, x, r)) && Bst(Bin(l, x, r)) && y !in Nodes(Bin(l, x, r))
    requires Separates(y.key, Bin(l, x, r)) && y.key < x.key
    requires x in m' && y in m' && m'[y] == Entry(Root(l), x) && m'[x] == Entry(null, Root(r))
    requires SameOn(m, m', Nodes(l) + Nodes(r))
    ensures Rep(m', Bin(l, y, Bin(Nil, x, r))) && Bst(Bin(l, y, Bin(Nil, x, r)))
    ensures Nodes(Bin(l, y, Bin(Nil, x, r))) == Nodes(Bin(l, x, r)) + {y}
  {
    RepFrame(m, m', l);
    RepFrame(m, m', r);
    assert Nodes(Bin(Nil, x, r)) == {x} + Nodes(r);
    assert Bst(Bin(Nil, x, r)) && Below({y}, Nodes(Bin(Nil, x, r)));
    assert Below(Nodes(l), Nodes(Bin(Nil, x, r)));
  }

  lemma {:induction false} InsertLarger(m: Links, m': Links, l: Shape, x: Node, r: Shape, y: Node)
    requires Rep(m, Bin(l, x, r)) && Bst(Bin(l, x, r)) && y !in Nodes(Bin(l, x, r))
    requires Separates(y.key, Bin(l, x, r)) && x.key < y.key
    requires x in m' && y in m' && m'[y] == Entry(x, Root(r)) && m'[x] == Entry(Root(l), null)
    requires SameOn(m, m', Nodes(l) + Nodes(r))
    ensures Rep(m', Bin(Bin(l, x, Nil), y, r)) && Bst(Bin(Bin(l, x, Nil), y, r))
    ensures Nodes(Bin(Bin(l, x, Nil), y, r)) == Nodes(Bin(l, x, r)) + {y}
  {
    RepFrame(m, m', l);
    RepFrame(m, m', r);
    assert Nodes(Bin(l, x, Nil)) == Nodes(l) + {x};
    assert Bst(Bin(l, x, Nil)) && Below(Nodes(Bin(l, x, Nil)), {y});
    assert Below(Nodes(Bin(l, x, Nil)), Nodes(r));
  }

  /** A largest node without right subtree takes r as its right subtree. */
  lemma HangRight(m: Links, m': Links, l: Shape, x: Node, r: Shape)
    requires Rep(m, Bin(l, x, Nil)) && Bst(Bin(l, x, Nil)) && Rep(m', r) && Bst(r)
    requires Below(Nodes(Bin(l, x, Nil)), Nodes(r))
    requires x in m' && m'[x] == Entry(Root(l), Root(r)) && SameOn(m, m', Nodes(l))
    ensures Rep(m', Bin(l, x, r)) && Bst(Bin(l, x, r)) && Nodes(Bin(l, x, r)) == Nodes(Bin(l, x, Nil)) + Nodes(r)
  {
    RepFrame(m, m', l);
    BelowWithin(Nodes(Bin(l, x, Nil)), Nodes(r), Nodes(l), Nodes(r));
    BelowWithin(Nodes(Bin(l, x, Nil)), Nodes(r), {x}, Nodes(r));
  }

  /** A key below, and a key above, all keys of s. */
  function Under(s: Shape): (k: int)
    ensures forall n <- Nodes(s) :: k < n.key
  {
    match s
    case Nil => 0
    case Bin(l, n, r) =>
      var a, b := Under(l), Under(r);
      var c := if a < b then a else b;
      if c < n.key then c else n.key - 1
  }

  function Over(s: Shape): (k: int)
    ensures forall n <- Nodes(s) :: n.key < k
  {
    match s
    case Nil => 0
    case Bin(l, n, r) =>
      var a, b := Over(l), Over(r);
      var c := if a < b then b else a;
      if n.key < c then c else n.key + 1
  }
}
