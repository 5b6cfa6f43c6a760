/** The search trees of src/lzss.c as values: what one call does to one tree. */
module LzssTree {
  import opened Common
  import opened LzssFormat
  import opened LzssKeys

  datatype Tree = Leaf | Node(left: Tree, cell: Cell, right: Tree)

  ghost function Nodes(t: Tree): set<Cell> {
    match t
    case Leaf => {}
    case Node(l, k, r) => Nodes(l) + {k} + Nodes(r)
  }

  /** Search-tree order: keys grow strictly from left to right. */
  ghost predicate Ordered(t: Tree, text: Text) {
    match t
    case Leaf => true
    case Node(l, k, r) =>
      && Ordered(l, text) && Ordered(r, text)
      && (forall x <- Nodes(l) :: Less(Key(text, x), Key(text, k)))
      && (forall x <- Nodes(r) :: Less(Key(text, k), Key(text, x)))
  }

  /** No cell occurs twice. */
  ghost predicate Distinct(t: Tree) {
    match t
    case Leaf => true
    case Node(l, k, r) =>
      && Distinct(l) && Distinct(r)
      && k !in Nodes(l) && k !in Nodes(r) && Nodes(l) !! Nodes(r)
  }

  lemma OrderedIsDistinct(t: Tree, text: Text)
    requires Ordered(t, text)
    ensures Distinct(t)
  {
    match t
    case Leaf =>
    case Node(l, k, r) =>
      OrderedIsDistinct(l, text);
      OrderedIsDistinct(r, text);
      LessTotal(Key(text, k), Key(text, k));
      forall x | x in Nodes(l) && x in Nodes(r) ensures false {
        LessTotal(Key(text, x), Key(text, k));
      }
  }

  /** Changing bytes that no key in the tree reads keeps the order. */
  lemma OrderedFrame(t: Tree, text: Text, text': Text)
    requires Ordered(t, text)
    requires forall x <- Nodes(t) :: Key(text, x) == Key(text', x)
    ensures Ordered(t, text')
  {
  }

  // ---- looking for the longest match ----

  /** Length and place of the best match so far. */
  datatype Match = Match(length: nat, position: int)

  /** One comparison on the way down: a strictly longer match replaces the best. */
  function Better(m: Match, n: nat, k: Cell): Match {
    if n > m.length then Match(n, k) else m
  }

  /** What the walk of insert_node leaves in match_length and match_position. */
  function Search(t: Tree, text: Text, r: Cell, best: Match): Match {
    match t
    case Leaf => best
    case Node(left, k, right) =>
      var n := Lcp(Key(text, r), Key(text, k));
      var m := Better(best, n, k);
      if n == F then m
      else if Key(text, r)[n] > Key(text, k)[n] then Search(right, text, r, m)
      else Search(left, text, r, m)
  }

  /** Every key below a node on the other side of it matches no longer than the node itself. */
  lemma OtherSideIsNoBetter(text: Text, r: Cell, k: Cell, x: Cell)
    requires var n := Lcp(Key(text, r), Key(text, k));
             n < F && if Key(text, r)[n] > Key(text, k)[n]
                      then Less(Key(text, x), Key(text, k))
                      else Less(Key(text, k), Key(text, x))
    ensures Lcp(Key(text, r), Key(text, x)) <= Lcp(Key(text, r), Key(text, k))
  {
    var kr, kk, kx := Key(text, r), Key(text, k), Key(text, x);
    LcpSymmetric(kr, kk);
    LcpSymmetric(kr, kx);
    if Less(kk, kr) { LessSqueeze(kx, kk, kr); } else { LessSqueeze(kr, kk, kx); }
  }

  /** The walk sees only one path, yet finds the longest match in the whole tree. */
  lemma {:induction false} SearchFindsLongest(t: Tree, text: Text, r: Cell, best: Match)
    requires Ordered(t, text)
    ensures var m := Search(t, text, r, best);
            && best.length <= m.length
            && (forall x <- Nodes(t) :: Lcp(Key(text, r), Key(text, x)) <= m.length)
            && (m == best || (m.position in Nodes(t) && Lcp(Key(text, r), Key(text, m.position)) == m.length))
  {
    match t
    case Leaf =>
    case Node(left, k, right) =>
      var n := Lcp(Key(text, r), Key(text, k));
      var m := Better(best, n, k);
      if n < F {
        var right? := Key(text, r)[n] > Key(text, k)[n];
        SearchFindsLongest(if right? then right else left, text, r, m);
        forall x | x in Nodes(if right? then left else right)
          ensures Lcp(Key(text, r), Key(text, x)) <= n
        {
          OtherSideIsNoBetter(text, r, k, x);
        }
      }
  }

  /** The subtree of t that is rooted at k. */
  ghost function Below(t: Tree, k: int): Tree {
    match t
    case Leaf => Leaf
    case Node(left, x, right) => if x == k then t else if k in Nodes(left) then Below(left, k) else Below(right, k)
  }

  /** The match is with a node of t, and every other node that matches as long lies below that one. */
  ghost predicate Topmost(t: Tree, text: Text, r: Cell, m: Match) {
    && m.position in Nodes(t) && Lcp(Key(text, r), Key(text, m.position)) == m.length
    && forall x <- Nodes(t) :: Lcp(Key(text, r), Key(text, x)) == m.length ==> x in Nodes(Below(t, m.position))
  }

  /** From a subtree to the whole: on the other side and at the root nothing matches as long. */
  lemma TopmostAbove(left: Tree, k: Cell, right: Tree, text: Text, r: Cell, m: Match, right?: bool)
    requires Distinct(Node(left, k, right)) && Topmost(if right? then right else left, text, r, m)
    requires Lcp(Key(text, r), Key(text, k)) < m.length
    requires forall x <- Nodes(if right? then left else right) :: Lcp(Key(text, r), Key(text, x)) < m.length
    ensures Topmost(Node(left, k, right), text, r, m)
  {
  }

  /** Of the longest matches the walk names the one nearest to the root: the first that it meets. */
  lemma {:induction false} SearchFindsTopmost(t: Tree, text: Text, r: Cell, best: Match)
    requires Ordered(t, text)
    ensures var m := Search(t, text, r, best);
            m == best || (best.length < m.length && Topmost(t, text, r, m))
  {
    if t.Leaf? { return; }
    var k := t.cell;
    var n := Lcp(Key(text, r), Key(text, k));
    var m := Better(best, n, k);
    if n < F {
      var right? := Key(text, r)[n] > Key(text, k)[n];
      var m' := Search(if right? then t.right else t.left, text, r, m);
      SearchFindsTopmost(if right? then t.right else t.left, text, r, m);
      OrderedIsDistinct(t, text);
      forall x | x in Nodes(if right? then t.left else t.right) ensures Lcp(Key(text, r), Key(text, x)) <= n {
        OtherSideIsNoBetter(text, r, k, x);
      }
      hide Search, Ordered, Distinct, Lcp, Key;
      if m' != m { TopmostAbove(t.left, k, t.right, text, r, m', right?); }
    }
  }

  // ---- insertion ----

  /** r goes to the empty place its key leads to, or takes over the node with an equal key. */
  function Insert(t: Tree, text: Text, r: Cell): Tree {
    match t
    case Leaf => Node(Leaf, r, Leaf)
    case Node(left, k, right) =>
      var n := Lcp(Key(text, r), Key(text, k));
      if n == F then Node(left, r, right)
      else if Key(text, r)[n] > Key(text, k)[n] then Node(left, k, Insert(right, text, r))
      else Node(Insert(left, text, r), k, right)
  }

  /** One level of insertion, told by the order of the keys. */
  lemma InsertIs(left: Tree, k: Cell, right: Tree, text: Text, r: Cell)
    ensures var (kr, kk) := (Key(text, r), Key(text, k));
            var t := Insert(Node(left, k, right), text, r);
            if kr == kk then t == Node(left, r, right)
            else if Less(kk, kr) then t == Node(left, k, Insert(right, text, r))
            else Less(kr, kk) && t == Node(Insert(left, text, r), k, right)
  {
    var kr, kk := Key(text, r), Key(text, k);
    LcpFull(kr, kk);
    LcpSymmetric(kr, kk);
  }

  /** Keys with a key between them, and one of the steps strict, differ. */
  lemma OtherSideDiffers(a: seq<byte>, b: seq<byte>, c: seq<byte>)
    requires |a| == |b| == |c| && (a == b || Less(a, b)) && (b == c || Less(b, c)) && !(a == b && b == c)
    ensures a != c
  {
    LessTotal(a, b);
    LessTotal(b, c);
  }

  /** Insertion adds r, removes exactly the nodes whose key r repeats, and keeps the order. */
  lemma {:induction false} InsertKeepsOrder(t: Tree, text: Text, r: Cell)
    requires Ordered(t, text)
    ensures Ordered(Insert(t, text, r), text)
    ensures forall x: Cell :: x in Nodes(Insert(t, text, r)) <==>
                              x == r || (x in Nodes(t) && Key(text, x) != Key(text, r))
  {
    if t.Leaf? { return; }
    var left, k, right := t.left, t.cell, t.right;
    var kr, kk := Key(text, r), Key(text, k);
    hide Less, Lcp, Key, Insert;
    InsertIs(left, k, right, text, r);
    if kr == kk || Less(kk, kr) {
      forall x | x in Nodes(left) ensures Key(text, x) != kr { OtherSideDiffers(Key(text, x), kk, kr); }
    }
    if kr == kk || Less(kr, kk) {
      forall x | x in Nodes(right) ensures Key(text, x) != kr { OtherSideDiffers(kr, kk, Key(text, x)); }
    }
    if kr != kk && Less(kk, kr) {
      InsertKeepsOrder(right, text, r);
    } else if kr != kk {
      InsertKeepsOrder(left, text, r);
    }
  }

  // ---- deletion ----

  function Max(t: Tree): Cell
    requires t.Node?
  {
    if t.right.Leaf? then t.cell else Max(t.right)
  }

  function RemoveMax(t: Tree): Tree
    requires t.Node?
  {
    if t.right.Leaf? then t.left else Node(t.left, t.cell, RemoveMax(t.right))
  }

  /** The tree that replaces a deleted node: an only child, or the in-order predecessor moved up. */
  function Join(left: Tree, right: Tree): Tree {
    if right.Leaf? then left
    else if left.Leaf? then right
    else Node(RemoveMax(left), Max(left), right)
  }

  function Delete(t: Tree, p: Cell): Tree {
    match t
    case Leaf => Leaf
    case Node(left, k, right) =>
      if k == p then Join(left, right) else Node(Delete(left, p), k, Delete(right, p))
  }

  lemma {:induction false} RemoveMaxSplits(t: Tree, text: Text)
    requires t.Node? && Ordered(t, text)
    ensures Ordered(RemoveMax(t), text)
    ensures Nodes(RemoveMax(t)) == Nodes(t) - {Max(t)} && Max(t) in Nodes(t)
    ensures forall x <- Nodes(RemoveMax(t)) :: Less(Key(text, x), Key(text, Max(t)))
  {
    OrderedIsDistinct(t, text);
    if t.right.Node? {
      RemoveMaxSplits(t.right, text);
      forall x | x in Nodes(t.left) + {t.cell} ensures Less(Key(text, x), Key(text, Max(t))) {
        if x != t.cell { LessSqueeze(Key(text, x), Key(text, t.cell), Key(text, Max(t))); }
      }
    }
  }

  lemma JoinKeepsOrder(left: Tree, k: Cell, right: Tree, text: Text)
    requires Ordered(Node(left, k, right), text)
    ensures Ordered(Join(left, right), text)
    ensures Nodes(Join(left, right)) == Nodes(left) + Nodes(right)
    ensures left.Node? && right.Node? ==> Join(left, right).right == right
  {
    if left.Node? && right.Node? {
      RemoveMaxSplits(left, text);
      forall x | x in Nodes(right) ensures Less(Key(text, Max(left)), Key(text, x)) {
        LessSqueeze(Key(text, Max(left)), Key(text, k), Key(text, x));
      }
    }
  }

  /** Deletion removes exactly p and keeps the order. */
  lemma {:induction false} DeleteKeepsOrder(t: Tree, p: Cell, text: Text)
    requires Ordered(t, text)
    ensures Ordered(Delete(t, p), text)
    ensures Nodes(Delete(t, p)) == Nodes(t) - {p}
  {
    OrderedIsDistinct(t, text);
    match t
    case Leaf =>
    case Node(left, k, right) =>
      DeleteKeepsOrder(left, p, text);
      DeleteKeepsOrder(right, p, text);
      if k == p { JoinKeepsOrder(left, k, right, text); }
  }

  lemma DeleteAbsent(t: Tree, p: Cell)
    requires p !in Nodes(t)
    ensures Delete(t, p) == t
  {
  }
}
