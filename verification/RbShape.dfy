/** Red-black trees as values: the shape of the pointer structure of sys/tree.h, seen as a
    tree of node identities, together with its one-hole contexts.

    The heap is observed through Links, a map from nodes to the contents of their RB_ENTRY
    fields, so that every statement about pointers below is a statement about values. */
module RbShape {
  import opened Basics
  import opened Section

  /** The RB_ENTRY fields of one node. */
  datatype Entry = Entry(left: Scn?, right: Scn?, parent: Scn?, red: bool)

  type Links = map<Scn, Entry>

  datatype Shape = Nil | Bin(l: Shape, n: Scn, red: bool, r: Shape)

  /** The path from a subtree up to the root: the hole is the left (InL) or right (InR) child of n. */
  datatype Path = Top | InL(up: Path, n: Scn, red: bool, sib: Shape) | InR(up: Path, n: Scn, red: bool, sib: Shape)

  function Root(s: Shape): Scn? {
    if s.Nil? then null else s.n
  }

  function Nodes(s: Shape): set<Scn> {
    match s
    case Nil => {}
    case Bin(l, n, _, r) => Nodes(l) + {n} + Nodes(r)
  }

  function InOrder(s: Shape): seq<Scn> {
    match s
    case Nil => []
    case Bin(l, n, _, r) => InOrder(l) + [n] + InOrder(r)
  }

  /** The binary search tree invariant; keys of distinct positions differ, hence so do the nodes. */
  predicate Bst(s: Shape) {
    match s
    case Nil => true
    case Bin(l, n, _, r) =>
      && Bst(l) && Bst(r)
      && (forall x <- Nodes(l) :: x.ndx < n.ndx)
      && (forall x <- Nodes(r) :: n.ndx < x.ndx)
  }

  predicate RootOnce(s: Shape) {
    s.Bin? ==> s.n !in Nodes(s.l) && s.n !in Nodes(s.r)
  }

  // ---------- Paths ----------

  /** The parent of the hole. */
  function Above(c: Path): Scn? {
    if c.Top? then null else c.n
  }

  /** One step of Plug: the subtree at the parent of the hole. */
  function Up(c: Path, s: Shape): (t: Shape)
    requires !c.Top?
    ensures t.Bin?
  {
    if c.InL? then Bin(s, c.n, c.red, c.sib) else Bin(c.sib, c.n, c.red, s)
  }

  function Plug(c: Path, s: Shape): Shape {
    match c
    case Top => s
    case InL(up, n, red, r) => Plug(up, Bin(s, n, red, r))
    case InR(up, n, red, l) => Plug(up, Bin(l, n, red, s))
  }

  function PathNodes(c: Path): set<Scn> {
    match c
    case Top => {}
    case InL(up, n, _, r) => PathNodes(up) + {n} + Nodes(r)
    case InR(up, n, _, l) => PathNodes(up) + {n} + Nodes(l)
  }

  function Before(c: Path): seq<Scn> {
    match c
    case Top => []
    case InL(up, _, _, _) => Before(up)
    case InR(up, n, _, l) => Before(up) + InOrder(l) + [n]
  }

  function After(c: Path): seq<Scn> {
    match c
    case Top => []
    case InL(up, n, _, r) => [n] + InOrder(r) + After(up)
    case InR(up, _, _, _) => After(up)
  }

  function Depth(c: Path): nat {
    if c.Top? then 0 else 1 + Depth(c.up)
  }

  /** The path, read from the root down, of d below c. */
  function Append(c: Path, d: Path): Path {
    match d
    case Top => c
    case InL(up, n, red, r) => InL(Append(c, up), n, red, r)
    case InR(up, n, red, l) => InR(Append(c, up), n, red, l)
  }

  lemma PlugInOrder(c: Path, s: Shape)
    ensures InOrder(Plug(c, s)) == Before(c) + InOrder(s) + After(c)
  {
    match c
    case Top =>
    case InL(up, n, red, r) =>
      PlugInOrder(up, Bin(s, n, red, r));
      Regroup(Before(up), InOrder(s), [n], InOrder(r), After(up));
    case InR(up, n, red, l) =>
      PlugInOrder(up, Bin(l, n, red, s));
      Regroup(Before(up), InOrder(l), [n], InOrder(s), After(up));
  }

  lemma PlugNodes(c: Path, s: Shape)
    ensures Nodes(Plug(c, s)) == PathNodes(c) + Nodes(s)
  {
    match c
    case Top =>
    case InL(up, n, red, r) => PlugNodes(up, Bin(s, n, red, r));
    case InR(up, n, red, l) => PlugNodes(up, Bin(l, n, red, s));
  }

  lemma AppendNodes(c: Path, d: Path)
    ensures PathNodes(Append(c, d)) == PathNodes(c) + PathNodes(d)
  {
  }

  lemma PlugAppend(c: Path, d: Path, s: Shape)
    ensures Plug(Append(c, d), s) == Plug(c, Plug(d, s))
    ensures Above(Append(c, d)) == if d.Top? then Above(c) else Above(d)
  {
    match d
    case Top =>
    case InL(up, n, red, r) => PlugAppend(c, up, Bin(s, n, red, r));
    case InR(up, n, red, l) => PlugAppend(c, up, Bin(l, n, red, s));
  }

  function First(q: seq<Scn>): Scn? {
    if q == [] then null else q[0]
  }

  function Last(q: seq<Scn>): Scn? {
    if q == [] then null else q[|q| - 1]
  }

  function Elems(q: seq<Scn>): set<Scn> {
    set x | x in q
  }

  lemma InOrderNodes(s: Shape)
    ensures Nodes(s) == Elems(InOrder(s))
  {
    match s
    case Nil =>
    case Bin(l, n, _, r) =>
      InOrderNodes(l);
      InOrderNodes(r);
      ElemsJoin(InOrder(l), n, InOrder(r));
  }

  lemma ElemsJoin(a: seq<Scn>, n: Scn, b: seq<Scn>)
    ensures Elems(a + [n] + b) == Elems(a) + {n} + Elems(b)
  {
  }

  /** Distances between keys inside a plugged search tree. */
  lemma PlugBst(c: Path, s: Shape)
    requires Bst(Plug(c, s))
    ensures Bst(s) && PathNodes(c) !! Nodes(s)
    ensures !c.Top? ==> Bst(c.sib) && c.n !in Nodes(c.sib) && c.n !in PathNodes(c.up) && PathNodes(c.up) !! Nodes(c.sib)
  {
    match c
    case Top =>
    case InL(up, n, red, r) => PlugBst(up, Bin(s, n, red, r));
    case InR(up, n, red, l) => PlugBst(up, Bin(l, n, red, s));
  }

  predicate Ascending(q: seq<Scn>) {
    forall i, j :: 0 <= i < j < |q| ==> q[i].ndx < q[j].ndx
  }

  lemma AscendingJoin(a: seq<Scn>, n: Scn, b: seq<Scn>)
    ensures Ascending(a + [n] + b) <==>
      Ascending(a) && Ascending(b) && (forall x <- Elems(a) :: x.ndx < n.ndx) && (forall x <- Elems(b) :: n.ndx < x.ndx)
  {
    if Ascending(a + [n] + b) {
      AscendingSplit(a, n, b);
    }
    if Ascending(a) && Ascending(b) && (forall x <- Elems(a) :: x.ndx < n.ndx) &&
        (forall x <- Elems(b) :: n.ndx < x.ndx) {
      var q := a + [n] + b;
      forall i, j | 0 <= i < j < |q| ensures q[i].ndx < q[j].ndx {
        assert i < |a| ==> q[i] == a[i] && a[i] in Elems(a);
        assert j > |a| ==> q[j] == b[j - |a| - 1] && b[j - |a| - 1] in Elems(b);
        assert j < |a| ==> q[j] == a[j];
        assert i > |a| ==> q[i] == b[i - |a| - 1];
      }
    }
  }

  lemma AscendingSplit(a: seq<Scn>, n: Scn, b: seq<Scn>)
    requires Ascending(a + [n] + b)
    ensures Ascending(a) && Ascending(b) && (forall x <- Elems(a) :: x.ndx < n.ndx) &&
        (forall x <- Elems(b) :: n.ndx < x.ndx)
  {
    var q := a + [n] + b;
    forall i, j | 0 <= i < j < |a| ensures a[i].ndx < a[j].ndx { assert q[i] == a[i] && q[j] == a[j]; }
    forall i, j | 0 <= i < j < |b| ensures b[i].ndx < b[j].ndx {
      assert q[|a| + 1 + i] == b[i] && q[|a| + 1 + j] == b[j];
    }
    forall x <- Elems(a) ensures x.ndx < n.ndx {
      var i :| 0 <= i < |a| && a[i] == x;
      assert q[i] == x && q[|a|] == n;
    }
    forall x <- Elems(b) ensures n.ndx < x.ndx {
      var i :| 0 <= i < |b| && b[i] == x;
      assert q[|a| + 1 + i] == x && q[|a|] == n;
    }
  }

  /** A fresh key between a and b keeps the whole sequence ascending, and is where Inserted puts it. */
  lemma InsertAscending(a: seq<Scn>, x: Scn, b: seq<Scn>)
    requires Ascending(a + b)
    requires forall y <- Elems(a) :: y.ndx < x.ndx
    requires forall y <- Elems(b) :: x.ndx < y.ndx
    ensures Ascending(a + [x] + b) && Inserted(a + b, x) == a + [x] + b
  {
    InsertedAt(a, x, b);
    assert Ascending(a) by {
      forall i, j | 0 <= i < j < |a| ensures a[i].ndx < a[j].ndx { assert (a + b)[i] == a[i] && (a + b)[j] == a[j]; }
    }
    assert Ascending(b) by {
      forall i, j | 0 <= i < j < |b| ensures b[i].ndx < b[j].ndx {
        assert (a + b)[|a| + i] == b[i] && (a + b)[|a| + j] == b[j];
      }
    }
    AscendingJoin(a, x, b);
  }

  /** A shape is a search tree exactly when its in-order sequence has strictly ascending keys. */
  lemma {:induction false} BstIffAscending(s: Shape)
    ensures Bst(s) <==> Ascending(InOrder(s))
  {
    match s
    case Nil =>
    case Bin(l, n, _, r) =>
      BstIffAscending(l);
      BstIffAscending(r);
      InOrderNodes(l);
      InOrderNodes(r);
      AscendingJoin(InOrder(l), n, InOrder(r));
  }

  /** The subtree at a path may be replaced by any search tree with the same in-order sequence. */
  lemma PlugSame(c: Path, s: Shape, s': Shape)
    requires InOrder(s') == InOrder(s)
    ensures InOrder(Plug(c, s')) == InOrder(Plug(c, s))
    ensures Bst(Plug(c, s)) ==> Bst(Plug(c, s'))
    ensures Nodes(Plug(c, s')) == Nodes(Plug(c, s))
  {
    PlugInOrder(c, s);
    PlugInOrder(c, s');
    BstIffAscending(Plug(c, s));
    BstIffAscending(Plug(c, s'));
    InOrderNodes(Plug(c, s));
    InOrderNodes(Plug(c, s'));
  }

  // ---------- Searching and locating ----------

  /** The key k belongs at the hole of c. */
  predicate Between(c: Path, k: nat) {
    c.Top? || ((if c.InL? then k < c.n.ndx else c.n.ndx < k) && Between(c.up, k))
  }

  lemma ElemsConcat(a: seq<Scn>, b: seq<Scn>)
    ensures Elems(a + b) == Elems(a) + Elems(b)
  {
  }

  lemma PathElems(c: Path)
    ensures PathNodes(c) == Elems(Before(c)) + Elems(After(c))
  {
    match c
    case Top =>
    case InL(up, n, red, r) =>
      PathElems(up);
      InOrderNodes(r);
      ElemsConcat([n] + InOrder(r), After(up));
      ElemsConcat([n], InOrder(r));
      assert Elems([n]) == {n};
    case InR(up, n, red, l) =>
      PathElems(up);
      InOrderNodes(l);
      ElemsConcat(Before(up) + InOrder(l), [n]);
      ElemsConcat(Before(up), InOrder(l));
      assert Elems([n]) == {n};
  }

  lemma {:induction false} BetweenNodes(c: Path, s: Shape, k: nat)
    requires Bst(Plug(c, s)) && Between(c, k)
    ensures forall x <- Elems(Before(c)) :: x.ndx < k
    ensures forall x <- Elems(After(c)) :: k < x.ndx
  {
    match c
    case Top =>
    case InL(up, n, red, r) =>
      BetweenNodes(up, Up(c, s), k);
      PlugBst(up, Up(c, s));
      InOrderNodes(r);
      ElemsConcat([n] + InOrder(r), After(up));
      ElemsConcat([n], InOrder(r));
    case InR(up, n, red, l) =>
      BetweenNodes(up, Up(c, s), k);
      PlugBst(up, Up(c, s));
      InOrderNodes(l);
      ElemsConcat(Before(up) + InOrder(l), [n]);
      ElemsConcat(Before(up), InOrder(l));
  }

  /** The path to x, and the subtree there. */
  ghost function Locate(c: Path, s: Shape, x: Scn): (r: (Path, Shape))
    requires x in Nodes(s)
    ensures Plug(r.0, r.1) == Plug(c, s) && r.1.Bin? && r.1.n == x
    decreases s
  {
    if x == s.n then (c, s)
    else if x in Nodes(s.l) then Locate(InL(c, s.n, s.red, s.r), s.l, x)
    else Locate(InR(c, s.n, s.red, s.l), s.r, x)
  }

  /** The reference meaning of an insertion: x goes before the first node with a larger key. */
  function Inserted(q: seq<Scn>, x: Scn): seq<Scn> {
    if q == [] || x.ndx < q[0].ndx then [x] + q else [q[0]] + Inserted(q[1..], x)
  }

  lemma {:induction false} InsertedAt(a: seq<Scn>, x: Scn, b: seq<Scn>)
    requires forall y <- Elems(a) :: y.ndx < x.ndx
    requires forall y <- Elems(b) :: x.ndx < y.ndx
    ensures Inserted(a + b, x) == a + [x] + b
  {
    if a == [] {
      assert a + b == b;
      assert b != [] ==> b[0] in Elems(b);
    } else {
      assert a[0] in Elems(a);
      assert (a + b)[1..] == a[1..] + b;
      InsertedAt(a[1..], x, b);
      assert [a[0]] + (a[1..] + [x] + b) == a + [x] + b;
    }
  }

  /** The reference meaning of a removal. */
  function Removed(q: seq<Scn>, x: Scn): seq<Scn> {
    if q == [] then [] else if q[0] == x then q[1..] else [q[0]] + Removed(q[1..], x)
  }

  lemma {:induction false} RemovedAt(a: seq<Scn>, x: Scn, b: seq<Scn>)
    requires x !in a
    ensures Removed(a + [x] + b, x) == a + b
  {
    if a == [] {
      assert a + [x] + b == [x] + b;
    } else {
      assert (a + [x] + b)[1..] == a[1..] + [x] + b;
      RemovedAt(a[1..], x, b);
    }
  }

  /** The element that follows x in q. */
  function Follower(q: seq<Scn>, x: Scn): Scn? {
    if q == [] then null else if q[0] == x then First(q[1..]) else Follower(q[1..], x)
  }

  lemma {:induction false} FollowerAt(a: seq<Scn>, x: Scn, b: seq<Scn>)
    requires x !in a
    ensures Follower(a + [x] + b, x) == First(b)
  {
    if a == [] {
      assert a + [x] + b == [x] + b;
    } else {
      assert (a + [x] + b)[1..] == a[1..] + [x] + b;
      FollowerAt(a[1..], x, b);
    }
  }

  // ---------- Shapes and pointers ----------

  /** The nodes of s carry exactly the links that s draws, with p as the parent of the root. */
  predicate Rep(m: Links, s: Shape, p: Scn?) {
    match s
    case Nil => true
    case Bin(l, n, red, r) =>
      n in m && m[n] == Entry(Root(l), Root(r), p, red) && Rep(m, l, n) && Rep(m, r, n)
  }

  /** The nodes of c carry the links that c draws when the hole holds a subtree rooted at h. */
  predicate RepPath(m: Links, c: Path, h: Scn?) {
    match c
    case Top => true
    case InL(up, n, red, r) =>
      n in m && m[n] == Entry(h, Root(r), Above(up), red) && Rep(m, r, n) && RepPath(m, up, n)
    case InR(up, n, red, l) =>
      n in m && m[n] == Entry(Root(l), h, Above(up), red) && Rep(m, l, n) && RepPath(m, up, n)
  }

  lemma PlugRep(m: Links, c: Path, s: Shape)
    ensures Rep(m, Plug(c, s), null) <==> Rep(m, s, Above(c)) && RepPath(m, c, Root(s))
  {
    match c
    case Top =>
    case InL(up, n, red, r) => PlugRep(m, up, Bin(s, n, red, r));
    case InR(up, n, red, l) => PlugRep(m, up, Bin(l, n, red, s));
  }

  predicate SameOn(m: Links, m': Links, xs: set<Scn>) {
    forall x <- xs :: x in m ==> x in m' && m'[x] == m[x]
  }

  lemma RepFrame(m: Links, m': Links, s: Shape, p: Scn?)
    requires Rep(m, s, p) && SameOn(m, m', Nodes(s))
    ensures Rep(m', s, p)
  {
    match s
    case Nil =>
    case Bin(l, n, _, r) =>
      RepFrame(m, m', l, n);
      RepFrame(m, m', r, n);
  }

  /** Only the root's parent link depends on where the subtree hangs. */
  lemma RepReparent(m: Links, m': Links, s: Shape, p: Scn?, p': Scn?)
    requires Rep(m, s, p) && RootOnce(s)
    requires s.Nil? || (s.n in m' && m'[s.n] == m[s.n].(parent := p') && SameOn(m, m', Nodes(s) - {s.n}))
    ensures Rep(m', s, p')
  {
    if s.Bin? {
      RepFrame(m, m', s.l, s.n);
      RepFrame(m, m', s.r, s.n);
    }
  }

  lemma RepPathFrame(m: Links, m': Links, c: Path, h: Scn?)
    requires RepPath(m, c, h) && SameOn(m, m', PathNodes(c))
    ensures RepPath(m', c, h)
  {
    if !c.Top? {
      RepFrame(m, m', c.sib, c.n);
      RepPathFrame(m, m', c.up, c.n);
    }
  }

  /** The entry e after its child pointer to was is redirected to now. */
  function Redirected(e: Entry, was: Scn?, now: Scn?): Entry {
    if e.left == was then e.(left := now) else e.(right := now)
  }

  /** m' differs from m on the nodes of c at most in the child pointer of the hole, which changes from was to now. */
  predicate HoleMoved(m: Links, m': Links, c: Path, was: Scn?, now: Scn?) {
    forall z <- PathNodes(c) :: z in m ==>
      z in m' && m'[z] == if z == Above(c) then Redirected(m[z], was, now) else m[z]
  }

  lemma RepHoleMoved(m: Links, m': Links, c: Path, s: Shape, now: Scn?)
    requires RepPath(m, c, Root(s)) && Bst(Plug(c, s)) && s.Bin?
    requires HoleMoved(m, m', c, s.n, now)
    ensures RepPath(m', c, now)
  {
    PlugBst(c, s);
    if !c.Top? {
      RepPathFrame(m, m', c.up, c.n);
      RepFrame(m, m', c.sib, c.n);
    }
  }
}
