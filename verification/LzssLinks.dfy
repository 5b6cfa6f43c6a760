/** How the parent and child arrays of src/lzss.c hold a tree, and what array writes do to it. */
module LzssLinks {
  import opened Common
  import opened LzssFormat
  import opened LzssTree

  /** The contents of lchild, rchild and parent. */
  datatype LinkArrays = LinkArrays(l: seq<int>, r: seq<int>, p: seq<int>)

  type Links = h: LinkArrays | |h.l| == N + 1 && |h.r| == N + 257 && |h.p| == N + 1
    witness LinkArrays(seq(N + 1, _ => 0), seq(N + 257, _ => 0), seq(N + 1, _ => 0))

  /** A root slot: index N + 1 + c of rchild. */
  type Root = c: int | N + 1 <= c <= N + 256 witness N + 1

  function RootOf(c: byte): Root { N + 1 + c }

  /** Tree t hangs in a slot that holds `at`, below `up`; every link is mirrored by a parent. */
  ghost predicate Shape(t: Tree, at: int, up: int, h: Links) {
    match t
    case Leaf => at == NIL
    case Node(a, k, b) =>
      at == k && h.p[k] == up && Shape(a, h.l[k], k, h) && Shape(b, h.r[k], k, h)
  }

  ghost predicate SameAt(k: Cell, h: Links, h': Links) {
    h.l[k] == h'.l[k] && h.r[k] == h'.r[k] && h.p[k] == h'.p[k]
  }

  /** Writes outside the nodes of t leave it alone. */
  lemma ShapeFrame(t: Tree, at: int, up: int, h: Links, h': Links)
    requires Shape(t, at, up, h)
    requires forall x <- Nodes(t) :: SameAt(x, h, h')
    ensures Shape(t, at, up, h')
  {
    match t
    case Leaf =>
    case Node(a, k, b) =>
      assert SameAt(k, h, h');
      ShapeFrame(a, h.l[k], k, h, h');
      ShapeFrame(b, h.r[k], k, h, h');
  }

  /** A subtree moves below another node when only the parent of its root is rewritten. */
  lemma Rehang(t: Tree, at: int, up: int, up': int, h: Links, h': Links)
    requires Shape(t, at, up, h) && Distinct(t)
    requires forall x <- Nodes(t) :: x != at ==> SameAt(x, h, h')
    requires t.Node? ==> h'.l[t.cell] == h.l[t.cell] && h'.r[t.cell] == h.r[t.cell] && h'.p[t.cell] == up'
    ensures Shape(t, at, up', h')
  {
    match t
    case Leaf =>
    case Node(a, k, b) =>
      ShapeFrame(a, h.l[k], k, h, h');
      ShapeFrame(b, h.r[k], k, h, h');
  }

  // ---- array writes ----

  function SetL(h: Links, i: int, v: int): Links
    requires 0 <= i <= N
  {
    h.(l := h.l[i := v])
  }

  function SetR(h: Links, i: int, v: int): Links
    requires 0 <= i <= N + 256
  {
    h.(r := h.r[i := v])
  }

  function SetP(h: Links, i: int, v: int): Links
    requires 0 <= i <= N
  {
    h.(p := h.p[i := v])
  }

  /** Writes v into the child slot of `up` that holds p; the right one is asked first. */
  function Relink(h: Links, up: int, p: Cell, v: int): Links
    requires 0 <= up <= N + 256 && (up <= N || h.r[up] == p)
  {
    if h.r[up] == p then SetR(h, up, v) else SetL(h, up, v)
  }

  /** The writes that hang r in the right or left child slot of `up`. */
  ghost function Attached(h: Links, up: int, right: bool, r: Cell): Links
    requires 0 <= up <= N + 256 && (up <= N || right)
  {
    SetP(if right then SetR(h, up, r) else SetL(h, up, r), r, up)
  }

  /** p has links that insert_node's tail may follow. */
  ghost predicate Replaceable(h: Links, p: Cell) {
    && 0 <= h.l[p] <= N && 0 <= h.r[p] <= N && h.l[p] != p && h.r[p] != p
    && 0 <= h.p[p] <= N + 256 && (h.p[p] <= N || h.r[h.p[p]] == p)
  }

  /** The writes with which r takes the place of p. */
  ghost function Superseded(h: Links, r: Cell, p: Cell): Links
    requires Replaceable(h, p) && r != p
  {
    var h1 := SetR(SetL(SetP(h, r, h.p[p]), r, h.l[p]), r, h.r[p]);
    var h2 := SetP(SetP(h1, h1.l[p], r), h1.r[p], r);
    SetP(Relink(h2, h2.p[p], p, r), p, NIL)
  }

  // ---- a tree with a hole ----

  /** The path from a root to a hole: `Under(up, k, sibling, right)` says the hole is a child of k. */
  datatype Path = Top | Under(up: Path, cell: Cell, sibling: Tree, right: bool)

  ghost function Plug(c: Path, t: Tree): Tree {
    match c
    case Top => t
    case Under(up, k, sib, right) => Plug(up, if right then Node(sib, k, t) else Node(t, k, sib))
  }

  ghost function PathNodes(c: Path): set<Cell> {
    match c
    case Top => {}
    case Under(up, k, sib, _) => PathNodes(up) + {k} + Nodes(sib)
  }

  lemma PlugNodes(c: Path, t: Tree)
    ensures Nodes(Plug(c, t)) == PathNodes(c) + Nodes(t)
  {
    match c
    case Top =>
    case Under(up, k, sib, right) => PlugNodes(up, if right then Node(sib, k, t) else Node(t, k, sib));
  }

  /** The nodes of the path differ from one another and from those below the hole. */
  ghost predicate PathDistinct(c: Path, below: set<Cell>) {
    match c
    case Top => true
    case Under(up, k, sib, _) =>
      && Distinct(sib) && k !in below && k !in Nodes(sib) && Nodes(sib) !! below
      && PathDistinct(up, below + {k} + Nodes(sib))
  }

  lemma PlugDistinct(c: Path, t: Tree)
    requires Distinct(Plug(c, t))
    ensures Distinct(t) && PathDistinct(c, Nodes(t))
  {
    match c
    case Top =>
    case Under(up, k, sib, right) =>
      var t' := if right then Node(sib, k, t) else Node(t, k, sib);
      PlugDistinct(up, t');
      assert Nodes(t') == Nodes(t) + {k} + Nodes(sib);
  }

  /** Nothing on the path lies below the hole. */
  lemma PathAvoids(c: Path, below: set<Cell>)
    requires PathDistinct(c, below)
    ensures PathNodes(c) !! below
  {
    match c
    case Top =>
    case Under(up, k, sib, _) => PathAvoids(up, below + {k} + Nodes(sib));
  }

  /** The index whose child slot is the hole. */
  ghost function HoleUp(c: Path, root: Root): int {
    if c.Top? then root else c.cell
  }

  /** What that slot holds. */
  ghost function HoleLink(c: Path, root: Root, h: Links): int {
    if c.Top? then h.r[root] else if c.right then h.r[c.cell] else h.l[c.cell]
  }

  ghost predicate PathShape(c: Path, root: Root, h: Links) {
    match c
    case Top => true
    case Under(up, k, sib, right) =>
      && HoleLink(up, root, h) == k && h.p[k] == HoleUp(up, root)
      && Shape(sib, if right then h.l[k] else h.r[k], k, h)
      && PathShape(up, root, h)
  }

  lemma PlugShape(c: Path, t: Tree, root: Root, h: Links)
    ensures Shape(Plug(c, t), h.r[root], root, h) <==>
            PathShape(c, root, h) && Shape(t, HoleLink(c, root, h), HoleUp(c, root), h)
  {
    match c
    case Top =>
    case Under(up, k, sib, right) => PlugShape(up, if right then Node(sib, k, t) else Node(t, k, sib), root, h);
  }

  /** h' differs from h on the path at most in the slot that is the hole. */
  ghost predicate SameButHole(c: Path, root: Root, h: Links, h': Links) {
    && (c.Under? ==>
          && h'.r[root] == h.r[root] && h'.p[c.cell] == h.p[c.cell]
          && (if c.right then h'.l[c.cell] == h.l[c.cell] else h'.r[c.cell] == h.r[c.cell]))
    && (forall x <- PathNodes(c) :: x != HoleUp(c, root) ==> SameAt(x, h, h'))
  }

  lemma PathFrame(c: Path, root: Root, h: Links, h': Links)
    requires PathShape(c, root, h)
    requires h'.r[root] == h.r[root] && forall x <- PathNodes(c) :: SameAt(x, h, h')
    ensures PathShape(c, root, h') && HoleLink(c, root, h') == HoleLink(c, root, h)
  {
    match c
    case Top =>
    case Under(up, k, sib, right) =>
      assert k in PathNodes(c);
      ShapeFrame(sib, if right then h.l[k] else h.r[k], k, h, h');
      PathFrame(up, root, h, h');
  }

  lemma PathFrameButHole(c: Path, below: set<Cell>, root: Root, h: Links, h': Links)
    requires PathShape(c, root, h) && PathDistinct(c, below) && SameButHole(c, root, h, h')
    ensures PathShape(c, root, h')
  {
    match c
    case Top =>
    case Under(up, k, sib, right) =>
      PathAvoids(up, below + {k} + Nodes(sib));
      ShapeFrame(sib, if right then h.l[k] else h.r[k], k, h, h');
      PathFrame(up, root, h, h');
  }

  /** Putting another tree in the hole: write it, link it, touch nothing else. */
  lemma Graft(c: Path, t: Tree, t': Tree, root: Root, h: Links, h': Links)
    requires Shape(Plug(c, t), h.r[root], root, h) && Distinct(Plug(c, t))
    requires SameButHole(c, root, h, h')
    requires Shape(t', HoleLink(c, root, h'), HoleUp(c, root), h')
    ensures Shape(Plug(c, t'), h'.r[root], root, h')
  {
    PlugShape(c, t, root, h);
    PlugDistinct(c, t);
    PathFrameButHole(c, Nodes(t), root, h, h');
    PlugShape(c, t', root, h');
  }

  /** The links at the node p in a hole; its parent's right slot tells on which side p hangs. */
  lemma AtNode(c: Path, a: Tree, p: Cell, b: Tree, root: Root, h: Links)
    requires var t := Plug(c, Node(a, p, b)); Shape(t, h.r[root], root, h) && Distinct(t)
    ensures HoleLink(c, root, h) == p && h.p[p] == HoleUp(c, root)
    ensures Shape(a, h.l[p], p, h) && Shape(b, h.r[p], p, h)
    ensures h.r[HoleUp(c, root)] == p <==> c.Top? || c.right
  {
    PlugShape(c, Node(a, p, b), root, h);
    PlugDistinct(c, Node(a, p, b));
    if c.Under? && !c.right { assert Shape(c.sibling, h.r[c.cell], c.cell, h); }
  }

  /** The node p in a hole, its subtrees and the path to it are apart. */
  lemma AtNodeApart(c: Path, a: Tree, p: Cell, b: Tree)
    requires Distinct(Plug(c, Node(a, p, b)))
    ensures Distinct(Node(a, p, b)) && p !in PathNodes(c)
    ensures forall x <- PathNodes(c) :: x !in Nodes(a) && x !in Nodes(b)
    ensures c.Under? ==> c.cell in PathNodes(c)
    ensures forall x: Cell :: x in Nodes(Plug(c, Node(a, p, b))) <==>
                              x == p || x in PathNodes(c) || x in Nodes(a) || x in Nodes(b)
  {
    var t := Node(a, p, b);
    PlugDistinct(c, t);
    PathAvoids(c, Nodes(t));
    PlugNodes(c, t);
    assert p in Nodes(t);
  }

  /** Node q, which is not in the tree, takes the place of node p. */
  ghost predicate TookOver(c: Path, root: Root, p: Cell, q: Cell, h: Links, h': Links) {
    && h'.l[q] == h.l[p] && h'.r[q] == h.r[p] && h'.p[q] == h.p[p]
    && (0 <= h.l[p] < N ==> h'.p[h.l[p]] == q)
    && (0 <= h.r[p] < N ==> h'.p[h.r[p]] == q)
    && HoleLink(c, root, h') == q
  }

  lemma TakeOver(c: Path, a: Tree, p: Cell, b: Tree, q: Cell, root: Root, h: Links, h': Links)
    requires var t := Plug(c, Node(a, p, b));
             Shape(t, h.r[root], root, h) && Distinct(t) && q !in Nodes(t)
    requires TookOver(c, root, p, q, h, h') && SameButHole(c, root, h, h')
    requires forall x <- Nodes(a) + Nodes(b) ::
               && h'.l[x] == h.l[x] && h'.r[x] == h.r[x]
               && (x != h.l[p] && x != h.r[p] ==> h'.p[x] == h.p[x])
    ensures Shape(Plug(c, Node(a, q, b)), h'.r[root], root, h')
  {
    AtNode(c, a, p, b, root, h);
    AtNodeApart(c, a, p, b);
    Rehang(a, h.l[p], p, q, h, h');
    Rehang(b, h.r[p], p, q, h, h');
    Graft(c, Node(a, p, b), Node(a, q, b), root, h, h');
  }

  /** Superseded, index by index. */
  lemma SupersededPointwise(h: Links, r: Cell, p: Cell)
    requires Replaceable(h, p) && r != p && h.l[p] != r && h.r[p] != r && h.p[p] != r && h.p[p] != p
    ensures var h' := Superseded(h, r, p);
            var up := h.p[p];
            && (forall x :: 0 <= x <= N && x != up && x != r ==> h'.l[x] == h.l[x])
            && (forall x :: 0 <= x <= N + 256 && x != up && x != r ==> h'.r[x] == h.r[x])
            && (forall x: Cell :: x != p && x != r && x != h.l[p] && x != h.r[p] ==> h'.p[x] == h.p[x])
            && (if h.r[up] == p then h'.r[up] == r && (up <= N ==> h'.l[up] == h.l[up])
                                else h'.l[up] == r && h'.r[up] == h.r[up])
            && h'.l[r] == h.l[p] && h'.r[r] == h.r[p] && h'.p[r] == h.p[p] && h'.p[p] == NIL
            && h'.p[h.l[p]] == r && h'.p[h.r[p]] == r
  {
  }

  /** Nothing outside the given cells and the given root slot was written. */
  ghost predicate OnlyNear(cells: set<Cell>, root: Root, h: Links, h': Links) {
    && (forall x: Cell :: x !in cells ==> SameAt(x, h, h'))
    && (forall d: Root :: d != root ==> h'.r[d] == h.r[d])
  }

  /** Hanging r in an empty slot. */
  lemma AttachShape(c: Path, r: Cell, root: Root, h: Links)
    requires var t := Plug(c, Leaf);
             Shape(t, h.r[root], root, h) && Distinct(t) && r !in Nodes(t)
    requires h.l[r] == NIL && h.r[r] == NIL
    ensures var h' := Attached(h, HoleUp(c, root), c.Top? || c.right, r);
            && Shape(Plug(c, Node(Leaf, r, Leaf)), h'.r[root], root, h')
            && OnlyNear(Nodes(Plug(c, Leaf)) + {r}, root, h, h')
            && (forall x: Cell :: x != r ==> h'.p[x] == h.p[x])
  {
    PlugNodes(c, Leaf);
    assert c.Under? ==> c.cell in PathNodes(c);
    var h' := Attached(h, HoleUp(c, root), c.Top? || c.right, r);
    Graft(c, Leaf, Node(Leaf, r, Leaf), root, h, h');
  }

  /** The neighbours of p, when r lies outside the tree, are apart from r and from p. */
  lemma Neighbours(c: Path, a: Tree, p: Cell, b: Tree, root: Root, h: Links)
    requires var t := Plug(c, Node(a, p, b)); Shape(t, h.r[root], root, h) && Distinct(t)
    ensures Replaceable(h, p) && h.p[p] != p
    ensures var cells := Nodes(Plug(c, Node(a, p, b)));
            && p in cells
            && (h.l[p] == NIL || h.l[p] in cells) && (h.r[p] == NIL || h.r[p] in cells)
            && (h.p[p] == root || h.p[p] in cells)
  {
    AtNode(c, a, p, b, root, h);
    AtNodeApart(c, a, p, b);
  }

  lemma SupersededNear(h: Links, r: Cell, p: Cell, cells: set<Cell>, root: Root)
    requires Replaceable(h, p) && r !in cells && p in cells && h.p[p] != p
    requires h.l[p] == NIL || h.l[p] in cells
    requires h.r[p] == NIL || h.r[p] in cells
    requires h.p[p] == root || h.p[p] in cells
    ensures OnlyNear(cells + {r}, root, h, Superseded(h, r, p))
  {
    SupersededPointwise(h, r, p);
    hide Superseded;
  }

  lemma SupersedeTookOver(c: Path, a: Tree, p: Cell, b: Tree, r: Cell, root: Root, h: Links)
    requires var t := Plug(c, Node(a, p, b));
             Shape(t, h.r[root], root, h) && Distinct(t) && r !in Nodes(t)
    requires Replaceable(h, p) && r != p
    ensures Shape(Plug(c, Node(a, r, b)), Superseded(h, r, p).r[root], root, Superseded(h, r, p))
    ensures Superseded(h, r, p).p[p] == NIL
  {
    AtNode(c, a, p, b, root, h);
    AtNodeApart(c, a, p, b);
    SupersededPointwise(h, r, p);
    hide Superseded, Plug, Distinct, PathDistinct, PathShape;
    TakeOver(c, a, p, b, r, root, h, Superseded(h, r, p));
  }

  /** Putting r in the place of p. */
  lemma SupersedeShape(c: Path, a: Tree, p: Cell, b: Tree, r: Cell, root: Root, h: Links)
    requires var t := Plug(c, Node(a, p, b));
             Shape(t, h.r[root], root, h) && Distinct(t) && r !in Nodes(t)
    ensures r != p && Replaceable(h, p)
    ensures var h' := Superseded(h, r, p);
            && Shape(Plug(c, Node(a, r, b)), h'.r[root], root, h')
            && h'.p[p] == NIL
            && OnlyNear(Nodes(Plug(c, Node(a, p, b))) + {r}, root, h, h')
  {
    hide Superseded, Plug, Distinct, Shape, OnlyNear, Replaceable;
    Neighbours(c, a, p, b, root, h);
    SupersedeTookOver(c, a, p, b, r, root, h);
    SupersededNear(h, r, p, Nodes(Plug(c, Node(a, p, b))), root);
  }

  // ---- finding a node, and deleting it ----

  /** Every node sits below some path. */
  lemma {:induction false} Locate(c: Path, t: Tree, p: Cell) returns (c': Path, a: Tree, b: Tree)
    requires p in Nodes(t)
    ensures Plug(c', Node(a, p, b)) == Plug(c, t)
    decreases t
  {
    if t.cell == p {
      c', a, b := c, t.left, t.right;
    } else if p in Nodes(t.left) {
      c', a, b := Locate(Under(c, t.cell, t.right, false), t.left, p);
    } else {
      c', a, b := Locate(Under(c, t.cell, t.left, true), t.right, p);
    }
  }

  lemma DeletePlug(c: Path, t: Tree, p: Cell)
    requires p !in PathNodes(c)
    ensures Delete(Plug(c, t), p) == Plug(c, Delete(t, p))
  {
    match c
    case Top =>
    case Under(up, k, sib, right) =>
      DeletePlug(up, if right then Node(sib, k, t) else Node(t, k, sib), p);
      DeleteAbsent(sib, p);
  }

  /** delete_node may hang q where p is. */
  ghost predicate CanRelink(h: Links, p: Cell, q: int) {
    0 <= q <= N && q != p && 0 <= h.p[p] <= N + 256 && (h.p[p] <= N || h.r[h.p[p]] == p)
  }

  /** The last writes of delete_node: q (or nothing) is hung where p was, and p is marked unused. */
  ghost function Relinked(h: Links, p: Cell, q: int): Links
    requires CanRelink(h, p, q)
  {
    var h1 := SetP(h, q, h.p[p]);
    SetP(Relink(h1, h1.p[p], p, q), p, NIL)
  }

  /** The writes that take q, which has no right child, out of the right slot of its parent. */
  ghost function Excised(h: Links, q: Cell): Links
    requires 0 <= h.p[q] <= N + 256 && 0 <= h.l[q] <= N && h.l[q] != q
  {
    var h1 := SetR(h, h.p[q], h.l[q]);
    SetP(h1, h1.l[q], h1.p[q])
  }

  /** The writes that give q the children of p, in delete_node's order. */
  ghost function Adopted(h: Links, q: Cell, p: Cell): Links
    requires 0 <= h.l[p] <= N && 0 <= h.r[p] <= N
  {
    var h1 := SetP(SetL(h, q, h.l[p]), h.l[p], q);
    SetP(SetR(h1, q, h1.r[p]), h1.r[p], q)
  }

  /** Adopting and relinking write what the tail of insert_node writes. */
  lemma AdoptedIsSuperseded(h: Links, q: Cell, p: Cell)
    requires Replaceable(h, p) && q != p && h.l[p] != q && h.r[p] != q && h.p[p] != q
    requires h.p[p] != p && h.l[p] != NIL && h.r[p] != NIL && h.l[p] != h.r[p]
    requires h.l[p] != h.p[p] && h.r[p] != h.p[p]
    ensures var h1 := Adopted(h, q, p);
            && CanRelink(h1, p, q)
            && Relinked(h1, p, q) == Superseded(h, q, p)
  {
    var x, y := Relinked(Adopted(h, q, p), p, q), Superseded(h, q, p);
    assert x.p == y.p;
    assert x.l == y.l;
    assert x.r == y.r;
  }

  lemma {:induction false} RemoveMaxNodes(t: Tree)
    requires t.Node? && Distinct(t)
    ensures Distinct(RemoveMax(t))
    ensures forall x: Cell :: x in Nodes(RemoveMax(t)) <==> x in Nodes(t) && x != Max(t)
    ensures Max(t) in Nodes(t)
  {
    if t.right.Node? { RemoveMaxNodes(t.right); }
  }

  /** A tree stays free of repetitions when a part of it shrinks. */
  lemma PlugShrinks(c: Path, t: Tree, t': Tree)
    requires Distinct(Plug(c, t)) && Distinct(t') && Nodes(t') <= Nodes(t)
    ensures Distinct(Plug(c, t'))
  {
    match c
    case Top =>
    case Under(up, k, sib, right) =>
      PlugDistinct(c, t);
      PlugShrinks(up, if right then Node(sib, k, t) else Node(t, k, sib),
                  if right then Node(sib, k, t') else Node(t', k, sib));
  }

  /** Relinked, index by index. */
  lemma RelinkedPointwise(h: Links, p: Cell, q: int)
    requires CanRelink(h, p, q)
    requires h.p[p] != p && h.p[p] != q
    ensures var h' := Relinked(h, p, q);
            var up := h.p[p];
            && (forall x :: 0 <= x <= N && x != up ==> h'.l[x] == h.l[x])
            && (forall x :: 0 <= x <= N + 256 && x != up ==> h'.r[x] == h.r[x])
            && (forall x: Cell :: x != p && x != q ==> h'.p[x] == h.p[x])
            && (if h.r[up] == p then h'.r[up] == q && (up <= N ==> h'.l[up] == h.l[up])
                                else h'.l[up] == q && h'.r[up] == h.r[up])
            && h'.p[q] == up && h'.p[p] == NIL
  {
  }

  /** Node p has at most one child: its only subtree t moves up into its place. */
  lemma RelinkShape(c: Path, a: Tree, p: Cell, b: Tree, root: Root, h: Links)
    requires var t := Plug(c, Node(a, p, b)); Shape(t, h.r[root], root, h) && Distinct(t)
    requires a.Leaf? || b.Leaf?
    ensures var q := if b.Leaf? then h.l[p] else h.r[p];
            && CanRelink(h, p, q)
            && var h' := Relinked(h, p, q);
            && Shape(Plug(c, Join(a, b)), h'.r[root], root, h') && h'.p[p] == NIL
            && OnlyNear(Nodes(Plug(c, Node(a, p, b))), root, h, h')
  {
    var q := if b.Leaf? then h.l[p] else h.r[p];
    hide Relinked, Plug, PathDistinct, PathShape, PathNodes, OnlyNear, SameButHole;
    AtNode(c, a, p, b, root, h);
    AtNodeApart(c, a, p, b);
    Neighbours(c, a, p, b, root, h);
    RelinkApart(c, a, p, b, root, h);
    hide Shape, Distinct, Nodes;
    RelinkKids(c, a, p, b, root, h);
    RelinkPath(c, a, p, b, root, h);
    RelinkNear(h, p, q, Nodes(Plug(c, Node(a, p, b))), root);
    Graft(c, Node(a, p, b), Join(a, b), root, h, Relinked(h, p, q));
  }

  lemma RelinkApart(c: Path, a: Tree, p: Cell, b: Tree, root: Root, h: Links)
    requires var t := Plug(c, Node(a, p, b)); Shape(t, h.r[root], root, h) && Distinct(t)
    requires a.Leaf? || b.Leaf?
    ensures h.p[p] != if b.Leaf? then h.l[p] else h.r[p]
  {
    AtNode(c, a, p, b, root, h);
    AtNodeApart(c, a, p, b);
    hide Plug, Distinct, PathDistinct, PathShape;
    assert a.Node? ==> h.l[p] == a.cell && a.cell in Nodes(a);
    assert b.Node? ==> h.r[p] == b.cell && b.cell in Nodes(b);
  }

  /** The subtree that stays, if any, and the slot of p's parent are apart. */
  lemma RelinkFacts(c: Path, a: Tree, p: Cell, b: Tree, root: Root, h: Links)
    requires var t := Plug(c, Node(a, p, b)); Shape(t, h.r[root], root, h) && Distinct(t)
    requires a.Leaf? || b.Leaf?
    ensures var (t, q) := (Join(a, b), if b.Leaf? then h.l[p] else h.r[p]);
            && CanRelink(h, p, q) && h.p[p] != p && h.p[p] != q && h.p[p] == HoleUp(c, root)
            && Shape(t, q, p, h) && Distinct(t) && (t.Leaf? ==> q == NIL) && (t.Node? ==> q == t.cell)
            && forall x <- Nodes(t) :: x != p && x != h.p[p]
  {
    AtNode(c, a, p, b, root, h);
    AtNodeApart(c, a, p, b);
    hide Plug, PathDistinct, PathShape;
    assert a.Node? ==> a.cell in Nodes(a);
    assert b.Node? ==> b.cell in Nodes(b);
  }

  lemma RelinkHang(t: Tree, p: Cell, q: int, h: Links)
    requires CanRelink(h, p, q) && h.p[p] != p && h.p[p] != q
    requires Shape(t, q, p, h) && Distinct(t) && (t.Node? ==> q == t.cell)
    requires forall x <- Nodes(t) :: x != p && x != h.p[p]
    ensures Shape(t, q, h.p[p], Relinked(h, p, q)) && Relinked(h, p, q).p[p] == NIL
  {
    assert t.Node? ==> t.cell in Nodes(t);
    RelinkedPointwise(h, p, q);
    hide Relinked, Nodes, Shape, Distinct;
    Rehang(t, q, p, h.p[p], h, Relinked(h, p, q));
  }

  /** The only subtree, or nothing, is hung where p was. */
  lemma RelinkKids(c: Path, a: Tree, p: Cell, b: Tree, root: Root, h: Links)
    requires var t := Plug(c, Node(a, p, b)); Shape(t, h.r[root], root, h) && Distinct(t)
    requires a.Leaf? || b.Leaf?
    ensures var q := if b.Leaf? then h.l[p] else h.r[p];
            && CanRelink(h, p, q)
            && Shape(Join(a, b), q, HoleUp(c, root), Relinked(h, p, q)) && Relinked(h, p, q).p[p] == NIL
  {
    hide *;
    RelinkFacts(c, a, p, b, root, h);
    RelinkHang(Join(a, b), p, if b.Leaf? then h.l[p] else h.r[p], h);
  }

  /** Nothing else on the path is written. */
  lemma RelinkPath(c: Path, a: Tree, p: Cell, b: Tree, root: Root, h: Links)
    requires var t := Plug(c, Node(a, p, b)); Shape(t, h.r[root], root, h) && Distinct(t)
    requires var q := if b.Leaf? then h.l[p] else h.r[p]; (a.Leaf? || b.Leaf?) && CanRelink(h, p, q)
    ensures var q := if b.Leaf? then h.l[p] else h.r[p];
            var h' := Relinked(h, p, q);
            SameButHole(c, root, h, h') && HoleLink(c, root, h') == q
  {
    AtNode(c, a, p, b, root, h);
    AtNodeApart(c, a, p, b);
    hide Plug, Distinct, PathDistinct, PathShape;
    var q := if b.Leaf? then h.l[p] else h.r[p];
    assert q == NIL || q in Nodes(a) || q in Nodes(b);
    hide Shape;
    RelinkedPointwise(h, p, q);
    hide Relinked, Nodes, PathNodes;
  }

  /** Nor anywhere else. */
  lemma RelinkNear(h: Links, p: Cell, q: int, cells: set<Cell>, root: Root)
    requires CanRelink(h, p, q) && h.p[p] != p && h.p[p] != q
    requires p in cells && (q == NIL || q in cells) && (h.p[p] == root || h.p[p] in cells)
    ensures OnlyNear(cells, root, h, Relinked(h, p, q))
  {
    RelinkedPointwise(h, p, q);
    hide Relinked;
  }

  /** The writes of delete_node when q, the left child of p, has no right child. */
  ghost function Promoted(h: Links, p: Cell, q: Cell): Links
    requires 0 <= h.r[p] <= N
  {
    SetP(SetR(h, q, h.r[p]), h.r[p], q)
  }

  /** Node q, the left child of p without a right child, takes the place of p: the path stays as it is ... */
  lemma PromotePath(c: Path, a: Tree, q: Cell, p: Cell, b: Tree, root: Root, h: Links)
    requires var t := Plug(c, Node(Node(a, q, Leaf), p, b)); Shape(t, h.r[root], root, h) && Distinct(t)
    requires b.Node?
    ensures h.l[p] == q && q != p && 0 <= h.r[p] <= N && h.p[p] == HoleUp(c, root) && h.p[p] != q
    ensures var h1 := Promoted(h, p, q);
            && CanRelink(h1, p, q)
            && SameButHole(c, root, h, Relinked(h1, p, q)) && HoleLink(c, root, Relinked(h1, p, q)) == q
  {
    AtNode(c, Node(a, q, Leaf), p, b, root, h);
    AtNodeApart(c, Node(a, q, Leaf), p, b);
    RelinkedPointwise(Promoted(h, p, q), p, q);
    hide Relinked, Plug, Distinct, PathDistinct, PathShape;
  }

  /** ... and q hangs there with its own left subtree and the right one of p. */
  lemma PromoteNode(c: Path, a: Tree, q: Cell, p: Cell, b: Tree, root: Root, h: Links)
    requires var t := Plug(c, Node(Node(a, q, Leaf), p, b)); Shape(t, h.r[root], root, h) && Distinct(t)
    requires b.Node? && h.l[p] == q && q != p && 0 <= h.r[p] <= N && CanRelink(Promoted(h, p, q), p, q)
    ensures var h' := Relinked(Promoted(h, p, q), p, q);
            Shape(Node(a, q, b), q, HoleUp(c, root), h') && h'.p[p] == NIL
  {
    AtNode(c, Node(a, q, Leaf), p, b, root, h);
    AtNodeApart(c, Node(a, q, Leaf), p, b);
    hide Relinked, Plug, PathDistinct, PathShape, PathNodes;
    PromoteKids(a, q, p, b, h, HoleUp(c, root));
  }

  lemma PromoteKids(a: Tree, q: Cell, p: Cell, b: Tree, h: Links, up: int)
    requires b.Node? && h.l[p] == q && q != p && 0 <= h.r[p] <= N && CanRelink(Promoted(h, p, q), p, q)
    requires h.p[p] == up && up != p && up != q
    requires Shape(a, h.l[q], q, h) && Shape(b, h.r[p], p, h) && Distinct(b)
    requires forall x <- Nodes(a) :: x != p && x != q && x != up && x !in Nodes(b)
    requires forall x <- Nodes(b) :: x != p && x != q && x != up
    ensures var h' := Relinked(Promoted(h, p, q), p, q);
            Shape(Node(a, q, b), q, up, h') && h'.p[p] == NIL
  {
    RelinkedPointwise(Promoted(h, p, q), p, q);
    hide Relinked;
    var h' := Relinked(Promoted(h, p, q), p, q);
    ShapeFrame(a, h.l[q], q, h, h');
    assert b.cell in Nodes(b);
    Rehang(b, h.r[p], p, q, h, h');
  }

  lemma PromoteShape(c: Path, a: Tree, q: Cell, p: Cell, b: Tree, root: Root, h: Links)
    requires var t := Plug(c, Node(Node(a, q, Leaf), p, b)); Shape(t, h.r[root], root, h) && Distinct(t)
    requires b.Node?
    ensures h.l[p] == q && q != p && 0 <= h.r[p] <= N
    ensures var h1 := Promoted(h, p, q);
            && CanRelink(h1, p, q)
            && var h' := Relinked(h1, p, q);
            && Shape(Plug(c, Node(a, q, b)), h'.r[root], root, h') && h'.p[p] == NIL
  {
    hide Relinked, Promoted, Plug, Distinct, Shape, CanRelink, SameButHole;
    PromotePath(c, a, q, p, b, root, h);
    PromoteNode(c, a, q, p, b, root, h);
    Graft(c, Node(Node(a, q, Leaf), p, b), Node(a, q, b), root, h, Relinked(Promoted(h, p, q), p, q));
  }

  lemma PromoteNear(c: Path, a: Tree, q: Cell, p: Cell, b: Tree, root: Root, h: Links)
    requires var t := Plug(c, Node(Node(a, q, Leaf), p, b)); Shape(t, h.r[root], root, h) && Distinct(t)
    requires b.Node?
    ensures h.l[p] == q && q != p && 0 <= h.r[p] <= N
    ensures var h1 := Promoted(h, p, q);
            && CanRelink(h1, p, q)
            && OnlyNear(Nodes(Plug(c, Node(Node(a, q, Leaf), p, b))), root, h, Relinked(h1, p, q))
  {
    PromotePath(c, a, q, p, b, root, h);
    Neighbours(c, Node(a, q, Leaf), p, b, root, h);
    AtNode(c, Node(a, q, Leaf), p, b, root, h);
    assert Replaceable(h, p);
    hide Plug, Distinct, Shape;
    PromotedNear(h, p, q, Nodes(Plug(c, Node(Node(a, q, Leaf), p, b))), root);
  }

  lemma PromotedNear(h: Links, p: Cell, q: Cell, cells: set<Cell>, root: Root)
    requires 0 <= h.r[p] <= N && CanRelink(Promoted(h, p, q), p, q)
    requires p in cells && q in cells && h.p[p] != p && h.p[p] != q && h.r[p] != p
    requires h.r[p] == NIL || h.r[p] in cells
    requires h.p[p] == root || h.p[p] in cells
    ensures OnlyNear(cells, root, h, Relinked(Promoted(h, p, q), p, q))
  {
    RelinkedPointwise(Promoted(h, p, q), p, q);
    hide Relinked;
  }

  /** Taking the rightmost node q, which hangs in a right slot, out of the tree. */
  lemma ExciseShape(c: Path, a: Tree, q: Cell, root: Root, h: Links)
    requires var t := Plug(c, Node(a, q, Leaf)); Shape(t, h.r[root], root, h) && Distinct(t)
    requires c.Under? && c.right
    ensures 0 <= h.p[q] <= N && 0 <= h.l[q] <= N && h.l[q] != q
    ensures var h' := Excised(h, q);
            && Shape(Plug(c, a), h'.r[root], root, h')
            && OnlyNear(Nodes(Plug(c, Node(a, q, Leaf))), root, h, h')
  {
    AtNode(c, a, q, Leaf, root, h);
    AtNodeApart(c, a, q, Leaf);
    var h' := Excised(h, q);
    Rehang(a, h.l[q], q, HoleUp(c, root), h, h');
    Graft(c, Node(a, q, Leaf), a, root, h, h');
  }

  /** The predecessor q of p has been taken out of p's left subtree; now it replaces p. */
  lemma MoveUpShape(c: Path, a: Tree, p: Cell, b: Tree, q: Cell, root: Root, h: Links)
    requires var t := Plug(c, Node(a, p, b)); Shape(t, h.r[root], root, h) && Distinct(t) && q !in Nodes(t)
    requires a.Node? && b.Node?
    ensures 0 <= h.l[p] <= N && 0 <= h.r[p] <= N && q != p
    ensures var h1 := Adopted(h, q, p);
            && CanRelink(h1, p, q)
            && var h' := Relinked(h1, p, q);
            && Shape(Plug(c, Node(a, q, b)), h'.r[root], root, h') && h'.p[p] == NIL
            && OnlyNear(Nodes(Plug(c, Node(a, p, b))) + {q}, root, h, h')
  {
    SupersedeShape(c, a, p, b, q, root, h);
    AtNode(c, a, p, b, root, h);
    AtNodeApart(c, a, p, b);
    hide Superseded, Adopted, Relinked, Plug, Distinct, PathDistinct, PathShape, Replaceable;
    assert Replaceable(h, p);
    AdoptedIsSuperseded(h, q, p);
  }
}
