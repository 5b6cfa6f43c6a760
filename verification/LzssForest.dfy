/** The 256 trees together: the invariant of the link arrays, and what keeps it. */
module LzssForest {
  import opened Common
  import opened LzssFormat
  import opened LzssKeys
  import opened LzssTree
  import opened LzssLinks

  type Trees = ts: seq<Tree> | |ts| == 256 witness seq(256, _ => Leaf)

  /** Tree c hangs off its root slot, in key order, and holds only strings that begin with c. */
  ghost predicate TreeOk(t: Tree, c: byte, text: Text, h: Links) {
    && Shape(t, h.r[RootOf(c)], RootOf(c), h)
    && Ordered(t, text)
    && (forall x <- Nodes(t) :: text[x] == c)
  }

  ghost predicate InForest(ts: Trees, text: Text, k: Cell) {
    k in Nodes(ts[text[k]])
  }

  ghost predicate Forest(ts: Trees, text: Text, h: Links) {
    && (forall c: byte :: TreeOk(ts[c], c, text, h))
    && (forall k: Cell :: !InForest(ts, text, k) ==> h.p[k] == NIL)
  }

  /** Only cells and the root slot of first byte c were written. */
  ghost predicate OnlyTree(c: byte, text: Text, h: Links, h': Links) {
    && (forall x: Cell :: text[x] != c ==> SameAt(x, h, h'))
    && (forall d: byte :: d != c ==> h'.r[RootOf(d)] == h.r[RootOf(d)])
  }

  lemma ForestUpdate(ts: Trees, c: byte, t': Tree, text: Text, h: Links, h': Links)
    requires Forest(ts, text, h) && OnlyTree(c, text, h, h')
    requires TreeOk(t', c, text, h')
    requires forall k: Cell :: text[k] == c && k !in Nodes(t') ==> h'.p[k] == NIL
    ensures Forest(ts[c := t'], text, h')
  {
    var ts' := ts[c := t'];
    forall d: byte ensures TreeOk(ts'[d], d, text, h') {
      if d != c {
        assert TreeOk(ts[d], d, text, h);
        ShapeFrame(ts[d], h.r[RootOf(d)], RootOf(d), h, h');
      }
    }
    forall k: Cell | !InForest(ts', text, k) ensures h'.p[k] == NIL {
      if text[k] != c {
        assert !InForest(ts, text, k);
        assert SameAt(k, h, h');
      }
    }
  }

  /** The parent of a node is a node or the root slot. */
  lemma ParentOf(t: Tree, root: Root, h: Links, k: Cell)
    requires Shape(t, h.r[root], root, h) && Distinct(t) && k in Nodes(t)
    ensures 0 <= h.p[k] < N || h.p[k] == root
  {
    var ctx, a, b := Locate(Top, t, k);
    AtNode(ctx, a, k, b, root, h);
  }

  /** A node has a parent, and so is recognised, exactly while it is in a tree. */
  lemma ParentTellsMembership(ts: Trees, text: Text, h: Links, k: Cell)
    requires Forest(ts, text, h)
    ensures h.p[k] == NIL <==> !InForest(ts, text, k)
    ensures h.p[k] == NIL || 0 <= h.p[k] < N || h.p[k] == RootOf(text[k])
  {
    if InForest(ts, text, k) {
      var c := text[k];
      assert TreeOk(ts[c], c, text, h);
      OrderedIsDistinct(ts[c], text);
      hide Shape, Distinct, Ordered;
      ParentOf(ts[c], RootOf(c), h, k);
    }
  }

  /** Overwriting bytes that no key in the forest reads changes no tree. */
  lemma ForestTextFrame(ts: Trees, text: Text, text': Text, h: Links)
    requires Forest(ts, text, h)
    requires forall x: Cell :: InForest(ts, text, x) ==> Key(text, x) == Key(text', x)
    ensures Forest(ts, text', h)
    ensures forall x: Cell :: InForest(ts, text', x) <==> InForest(ts, text, x)
  {
    forall c: byte
      ensures TreeOk(ts[c], c, text', h)
    {
      assert TreeOk(ts[c], c, text, h);
      forall x | x in Nodes(ts[c]) ensures Key(text, x) == Key(text', x) && text'[x] == c {
        assert InForest(ts, text, x);
        assert Key(text, x)[0] == Key(text', x)[0];
      }
      OrderedFrame(ts[c], text, text');
    }
    forall x: Cell ensures InForest(ts, text', x) <==> InForest(ts, text, x) {
      if InForest(ts, text, x) {
        assert Key(text, x)[0] == Key(text', x)[0];
      }
      if InForest(ts, text', x) {
        assert TreeOk(ts[text'[x]], text'[x], text, h);
      }
    }
  }

  lemma EmptyForest(ts: Trees, text: Text, h: Links)
    requires forall c: byte :: ts[c] == Leaf && h.r[RootOf(c)] == NIL
    requires forall k: Cell :: h.p[k] == NIL
    ensures Forest(ts, text, h)
  {
    forall c: byte ensures TreeOk(ts[c], c, text, h) {}
  }

  // ---- the two operations on the forest ----

  function InsertAt(ts: Trees, text: Text, r: Cell): Trees {
    ts[text[r] := Insert(ts[text[r]], text, r)]
  }

  function DeleteAt(ts: Trees, text: Text, p: Cell): Trees {
    ts[text[p] := Delete(ts[text[p]], p)]
  }

  lemma DeleteAtAbsent(ts: Trees, text: Text, p: Cell)
    requires !InForest(ts, text, p)
    ensures DeleteAt(ts, text, p) == ts
  {
    DeleteAbsent(ts[text[p]], p);
  }

  function SearchAt(ts: Trees, text: Text, r: Cell, position: int): Match {
    Search(ts[text[r]], text, r, Match(0, position))
  }

  /** Of the longest matches, insert_node names the one nearest to the root. */
  lemma SearchAtTopmost(ts: Trees, text: Text, h: Links, r: Cell, position: int)
    requires Forest(ts, text, h)
    ensures var m := SearchAt(ts, text, r, position); m.length == 0 || Topmost(ts[text[r]], text, r, m)
  {
    assert TreeOk(ts[text[r]], text[r], text, h);
    hide Topmost;
    SearchFindsTopmost(ts[text[r]], text, r, Match(0, position));
  }

  // ---- the walk of insert_node ----

  /** insert_node has come down to the hole of `ctx`; `sub` is still to be searched. */
  ghost predicate Walking(ts: Trees, text: Text, h: Links, r: Cell, position: int, ctx: Path, sub: Tree, best: Match) {
    && Forest(ts, text, h) && !InForest(ts, text, r)
    && ts[text[r]] == Plug(ctx, sub)
    && Insert(ts[text[r]], text, r) == Plug(ctx, Insert(sub, text, r))
    && SearchAt(ts, text, r, position) == Search(sub, text, r, best)
  }

  lemma WalkStart(ts: Trees, text: Text, h: Links, r: Cell, position: int)
    requires Forest(ts, text, h) && !InForest(ts, text, r)
    ensures Walking(ts, text, h, r, position, Top, ts[text[r]], Match(0, position))
  {
  }

  /** What the slot at the hole holds, and what is known about the node in it. */
  lemma WalkHole(ts: Trees, text: Text, h: Links, r: Cell, position: int, ctx: Path, sub: Tree, best: Match)
    requires Walking(ts, text, h, r, position, ctx, sub, best)
    ensures HoleLink(ctx, RootOf(text[r]), h) == if sub.Leaf? then NIL else sub.cell
    ensures sub.Node? ==> sub.cell != r && text[sub.cell] == text[r]
  {
    var c := text[r];
    assert TreeOk(ts[c], c, text, h);
    PlugShape(ctx, sub, RootOf(c), h);
    PlugNodes(ctx, sub);
  }

  /** One level further down. */
  lemma WalkDown(ts: Trees, text: Text, h: Links, r: Cell, position: int, ctx: Path, sub: Tree, best: Match, cmp: int)
    requires Walking(ts, text, h, r, position, ctx, sub, best) && sub.Node?
    requires var n := Lcp(Key(text, r), Key(text, sub.cell));
             n < F && cmp == (Key(text, r)[n] as int) - (Key(text, sub.cell)[n] as int)
    ensures var n := Lcp(Key(text, r), Key(text, sub.cell));
            Walking(ts, text, h, r, position,
                    Under(ctx, sub.cell, if cmp >= 0 then sub.left else sub.right, cmp >= 0),
                    if cmp >= 0 then sub.right else sub.left,
                    Better(best, n, sub.cell))
  {
  }

  /** The tree that r would belong to. */
  lemma ForestOne(ts: Trees, text: Text, h: Links, r: Cell)
    requires Forest(ts, text, h) && !InForest(ts, text, r)
    ensures TreeOk(ts[text[r]], text[r], text, h) && r !in Nodes(ts[text[r]])
    ensures forall k: Cell :: text[k] == text[r] && k !in Nodes(ts[text[r]]) ==> h.p[k] == NIL
  {
    assert forall k: Cell :: text[k] == text[r] && k !in Nodes(ts[text[r]]) ==> !InForest(ts, text, k);
  }

  lemma ClearedTree(t: Tree, c: byte, text: Text, h: Links, r: Cell)
    requires TreeOk(t, c, text, h) && r !in Nodes(t)
    ensures TreeOk(t, c, text, SetL(SetR(h, r, NIL), r, NIL))
  {
    ShapeFrame(t, h.r[RootOf(c)], RootOf(c), h, SetL(SetR(h, r, NIL), r, NIL));
  }

  /** Clearing the children of a cell outside the forest is harmless. */
  lemma ForestClear(ts: Trees, text: Text, h: Links, r: Cell)
    requires Forest(ts, text, h) && !InForest(ts, text, r)
    ensures Forest(ts, text, SetL(SetR(h, r, NIL), r, NIL))
  {
    var h' := SetL(SetR(h, r, NIL), r, NIL);
    var c := text[r];
    assert ts[c := ts[c]] == ts;
    hide Forest, InForest, Shape, Ordered, Nodes, TreeOk;
    ForestOne(ts, text, h, r);
    ClearedTree(ts[c], c, text, h, r);
    ForestUpdate(ts, c, ts[c], text, h, h');
  }

  /** The walk ended in an empty slot, and r was hung there. */
  lemma ForestAttach(ts: Trees, text: Text, h: Links, r: Cell, position: int, ctx: Path, best: Match)
    requires Walking(ts, text, h, r, position, ctx, Leaf, best)
    requires h.l[r] == NIL && h.r[r] == NIL
    ensures Forest(InsertAt(ts, text, r), text, Attached(h, HoleUp(ctx, RootOf(text[r])), ctx.Top? || ctx.right, r))
    ensures SearchAt(ts, text, r, position) == best
  {
    var c := text[r];
    assert TreeOk(ts[c], c, text, h);
    OrderedIsDistinct(ts[c], text);
    AttachShape(ctx, r, RootOf(c), h);
    PlugNodes(ctx, Leaf);
    PlugNodes(ctx, Node(Leaf, r, Leaf));
    ForestInserted(ts, text, h, Attached(h, HoleUp(ctx, RootOf(c)), ctx.Top? || ctx.right, r), r);
  }

  /** The walk met an equal key at p, and r superseded it. */
  lemma ForestSupersede(ts: Trees, text: Text, h: Links, r: Cell, position: int, ctx: Path, sub: Tree, best: Match)
    requires Walking(ts, text, h, r, position, ctx, sub, best) && sub.Node?
    requires Lcp(Key(text, r), Key(text, sub.cell)) == F
    ensures sub.cell != r && Replaceable(h, sub.cell)
    ensures Forest(InsertAt(ts, text, r), text, Superseded(h, r, sub.cell))
    ensures SearchAt(ts, text, r, position) == Better(best, F, sub.cell)
  {
    var c := text[r];
    assert TreeOk(ts[c], c, text, h);
    OrderedIsDistinct(ts[c], text);
    SupersedeShape(ctx, sub.left, sub.cell, sub.right, r, RootOf(c), h);
    PlugNodes(ctx, sub);
    PlugNodes(ctx, Node(sub.left, r, sub.right));
    ForestInserted(ts, text, h, Superseded(h, r, sub.cell), r);
  }

  lemma ForestInserted(ts: Trees, text: Text, h: Links, h': Links, r: Cell)
    requires Forest(ts, text, h)
    requires var (t, root) := (ts[text[r]], RootOf(text[r]));
             var t' := Insert(t, text, r);
             && Shape(t', h'.r[root], root, h')
             && OnlyNear(Nodes(t) + {r}, root, h, h')
             && (forall x <- Nodes(t) :: x !in Nodes(t') ==> h'.p[x] == NIL)
    ensures Forest(InsertAt(ts, text, r), text, h')
  {
    var c := text[r];
    var t := ts[c];
    assert TreeOk(t, c, text, h);
    InsertKeepsOrder(t, text, r);
    forall k: Cell | text[k] == c && k !in Nodes(Insert(t, text, r)) ensures h'.p[k] == NIL {
      if k !in Nodes(t) {
        assert !InForest(ts, text, k);
        assert SameAt(k, h, h');
      }
    }
    ForestUpdate(ts, c, Insert(t, text, r), text, h, h');
  }

  // ---- the cases of delete_node ----

  lemma ForestDeleted(ts: Trees, text: Text, h: Links, h': Links, p: Cell)
    requires Forest(ts, text, h)
    requires var (t, root) := (ts[text[p]], RootOf(text[p]));
             && Shape(Delete(t, p), h'.r[root], root, h')
             && p in Nodes(t) && h'.p[p] == NIL
             && OnlyNear(Nodes(t), root, h, h')
    ensures Forest(DeleteAt(ts, text, p), text, h')
  {
    var c := text[p];
    var t := ts[c];
    assert TreeOk(t, c, text, h);
    DeleteKeepsOrder(t, p, text);
    forall k: Cell | text[k] == c && k !in Nodes(Delete(t, p)) ensures h'.p[k] == NIL {
      if k !in Nodes(t) {
        assert !InForest(ts, text, k);
        assert SameAt(k, h, h');
      }
    }
    ForestUpdate(ts, c, Delete(t, p), text, h, h');
  }

  /** delete_node stands at p: `a` and `b` are its subtrees. */
  ghost predicate Standing(ts: Trees, text: Text, h: Links, p: Cell, ctx: Path, a: Tree, b: Tree) {
    Forest(ts, text, h) && ts[text[p]] == Plug(ctx, Node(a, p, b))
  }

  lemma StandAt(ts: Trees, text: Text, h: Links, p: Cell) returns (ctx: Path, a: Tree, b: Tree)
    requires Forest(ts, text, h) && InForest(ts, text, p)
    ensures Standing(ts, text, h, p, ctx, a, b)
    ensures h.l[p] == (if a.Leaf? then NIL else a.cell)
    ensures h.r[p] == (if b.Leaf? then NIL else b.cell)
    ensures DeleteAt(ts, text, p) == ts[text[p] := Plug(ctx, Join(a, b))]
  {
    var c := text[p];
    assert TreeOk(ts[c], c, text, h);
    OrderedIsDistinct(ts[c], text);
    ctx, a, b := Locate(Top, ts[c], p);
    AtNode(ctx, a, p, b, RootOf(c), h);
    AtNodeApart(ctx, a, p, b);
    DeletePlug(ctx, Node(a, p, b), p);
  }

  lemma ForestRelink(ts: Trees, text: Text, h: Links, p: Cell, ctx: Path, a: Tree, b: Tree)
    requires Standing(ts, text, h, p, ctx, a, b) && (a.Leaf? || b.Leaf?)
    requires DeleteAt(ts, text, p) == ts[text[p] := Plug(ctx, Join(a, b))]
    ensures var q := if b.Leaf? then h.l[p] else h.r[p];
            && CanRelink(h, p, q)
            && Forest(DeleteAt(ts, text, p), text, Relinked(h, p, q))
  {
    var c := text[p];
    assert TreeOk(ts[c], c, text, h);
    OrderedIsDistinct(ts[c], text);
    RelinkShape(ctx, a, p, b, RootOf(c), h);
    PlugNodes(ctx, Node(a, p, b));
    hide Relinked;
    assert Delete(ts[c], p) == DeleteAt(ts, text, p)[c];
    ForestDeleted(ts, text, h, Relinked(h, p, if b.Leaf? then h.l[p] else h.r[p]), p);
  }

  lemma ForestPromote(ts: Trees, text: Text, h: Links, p: Cell, ctx: Path, a: Tree, b: Tree)
    requires Standing(ts, text, h, p, ctx, a, b) && a.Node? && a.right.Leaf? && b.Node?
    requires DeleteAt(ts, text, p) == ts[text[p] := Plug(ctx, Join(a, b))]
    ensures var q := a.cell;
            && h.l[p] == q && q != p && 0 <= h.r[p] <= N
            && var h1 := Promoted(h, p, q);
            && CanRelink(h1, p, q)
            && Forest(DeleteAt(ts, text, p), text, Relinked(h1, p, q))
  {
    var c := text[p];
    assert TreeOk(ts[c], c, text, h);
    OrderedIsDistinct(ts[c], text);
    PromoteShape(ctx, a.left, a.cell, p, b, RootOf(c), h);
    PromoteNear(ctx, a.left, a.cell, p, b, RootOf(c), h);
    PlugNodes(ctx, Node(a, p, b));
    hide Relinked, Promoted;
    assert Delete(ts[c], p) == DeleteAt(ts, text, p)[c];
    ForestDeleted(ts, text, h, Relinked(Promoted(h, p, a.cell), p, a.cell), p);
  }

  /** Going right from the left child of p: `sub` is reached and its rightmost node is still to come. */
  ghost predicate Descending(c: Path, sub: Tree, top: Path, left: Tree) {
    && sub.Node? && left.Node? && Max(sub) == Max(left)
    && Plug(c, sub) == Plug(top, left)
    && Plug(c, RemoveMax(sub)) == Plug(top, RemoveMax(left))
  }

  lemma DescendStart(ctx: Path, a: Tree, p: Cell, b: Tree)
    requires a.Node?
    ensures Descending(Under(ctx, p, b, false), a, Under(ctx, p, b, false), a)
  {
  }

  lemma DescendEnd(c: Path, sub: Tree, top: Path, left: Tree)
    requires Descending(c, sub, top, left) && sub.right.Leaf?
    ensures sub.cell == Max(left)
  {
  }

  lemma DescendStep(c: Path, sub: Tree, top: Path, left: Tree)
    requires Descending(c, sub, top, left) && sub.right.Node?
    ensures Descending(Under(c, sub.cell, sub.left, true), sub.right, top, left)
  {
  }

  /** The right link of the node reached says whether it is the rightmost. */
  lemma DescendHole(ts: Trees, text: Text, h: Links, p: Cell, ctx: Path, a: Tree, b: Tree, c: Path, sub: Tree)
    requires Standing(ts, text, h, p, ctx, a, b) && Descending(c, sub, Under(ctx, p, b, false), a)
    ensures h.r[sub.cell] == if sub.right.Leaf? then NIL else sub.right.cell
  {
    assert TreeOk(ts[text[p]], text[p], text, h);
    OrderedIsDistinct(ts[text[p]], text);
    AtNode(c, sub.left, sub.cell, sub.right, RootOf(text[p]), h);
  }

  /** Taking the rightmost node q out leaves p standing in a tree without q. */
  lemma ExciseStanding(t: Tree, h: Links, root: Root, p: Cell, ctx: Path, a: Tree, b: Tree, c: Path, sub: Tree)
    requires Shape(t, h.r[root], root, h) && Distinct(t) && t == Plug(ctx, Node(a, p, b))
    requires Descending(c, sub, Under(ctx, p, b, false), a) && sub.right.Leaf? && c.Under? && c.right
    ensures var q := sub.cell;
            && q == Max(a) && 0 <= h.p[q] <= N && 0 <= h.l[q] <= N && h.l[q] != q
            && var (t1, h1) := (Plug(ctx, Node(RemoveMax(a), p, b)), Excised(h, q));
            && Shape(t1, h1.r[root], root, h1) && Distinct(t1)
            && (forall x: Cell :: x in Nodes(t1) <==> x in Nodes(t) && x != q)
            && OnlyNear(Nodes(t), root, h, h1)
  {
    var q := sub.cell;
    ExciseShape(c, sub.left, q, root, h);
    AtNodeApart(c, sub.left, q, Leaf);
    PlugShrinks(c, sub, sub.left);
    PlugNodes(c, sub.left);
  }

  lemma NearTrans(cells: set<Cell>, cells': set<Cell>, root: Root, h: Links, h1: Links, h2: Links)
    requires OnlyNear(cells, root, h, h1) && OnlyNear(cells', root, h1, h2) && cells' <= cells
    ensures OnlyNear(cells, root, h, h2)
  {
    forall x: Cell | x !in cells ensures SameAt(x, h, h2) {
      assert SameAt(x, h, h1) && SameAt(x, h1, h2);
    }
  }

  /** The writes of delete_node when p has two children and its predecessor lies deeper. */
  ghost predicate MovedUp(h: Links, p: Cell, q: Cell, h': Links) {
    && 0 <= h.p[q] <= N && 0 <= h.l[q] <= N && h.l[q] != q && q != p
    && var h1 := Excised(h, q);
    && 0 <= h1.l[p] <= N && 0 <= h1.r[p] <= N
    && var h2 := Adopted(h1, q, p);
    && CanRelink(h2, p, q)
    && h' == Relinked(h2, p, q)
  }

  lemma MoveUpTree(t: Tree, h: Links, root: Root, p: Cell, ctx: Path, a: Tree, b: Tree, c: Path, sub: Tree)
    returns (h': Links)
    requires Shape(t, h.r[root], root, h) && Distinct(t) && t == Plug(ctx, Node(a, p, b))
    requires a.Node? && a.right.Node? && b.Node?
    requires Descending(c, sub, Under(ctx, p, b, false), a) && sub.right.Leaf? && c.Under? && c.right
    ensures MovedUp(h, p, sub.cell, h')
    ensures Shape(Plug(ctx, Join(a, b)), h'.r[root], root, h') && h'.p[p] == NIL
    ensures OnlyNear(Nodes(t), root, h, h')
  {
    var q := sub.cell;
    ExciseStanding(t, h, root, p, ctx, a, b, c, sub);
    var h1 := Excised(h, q);
    var t1 := Plug(ctx, Node(RemoveMax(a), p, b));
    assert RemoveMax(a).Node?;
    MoveUpShape(ctx, RemoveMax(a), p, b, q, root, h1);
    hide Excised, Adopted, Relinked, Shape, Distinct, OnlyNear, Plug, PathNodes;
    h' := Relinked(Adopted(h1, q, p), p, q);
    AtNodeInside(c, sub, t);
    NearTrans(Nodes(t), Nodes(t1) + {q}, root, h, h1, h');
  }

  lemma AtNodeInside(c: Path, sub: Tree, t: Tree)
    requires sub.Node? && t == Plug(c, sub)
    ensures sub.cell in Nodes(t)
  {
    PlugNodes(c, sub);
  }

  lemma ForestMoveUp(ts: Trees, text: Text, h: Links, p: Cell, ctx: Path, a: Tree, b: Tree, c: Path, sub: Tree)
    requires Standing(ts, text, h, p, ctx, a, b) && a.Node? && a.right.Node? && b.Node?
    requires DeleteAt(ts, text, p) == ts[text[p] := Plug(ctx, Join(a, b))]
    requires Descending(c, sub, Under(ctx, p, b, false), a) && sub.right.Leaf? && c.Under? && c.right
    ensures exists h' :: MovedUp(h, p, sub.cell, h') && Forest(DeleteAt(ts, text, p), text, h')
  {
    var d := text[p];
    assert TreeOk(ts[d], d, text, h);
    OrderedIsDistinct(ts[d], text);
    AtNodeInside(ctx, Node(a, p, b), ts[d]);
    var h' := MoveUpTree(ts[d], h, RootOf(d), p, ctx, a, b, c, sub);
    hide MovedUp, Join;
    assert Delete(ts[d], p) == DeleteAt(ts, text, p)[d];
    ForestDeleted(ts, text, h, h', p);
  }
}
