/** struct encode_state of src/lzss.c and the three routines that keep it. */
module LzssEncodeState {
  import opened Common
  import opened LzssFormat
  import opened LzssKeys
  import opened LzssTree
  import opened LzssLinks
  import opened LzssForest

  class EncodeState {
    const lchild: array<int>
    const rchild: array<int>
    const parent: array<int>
    const textBuf: array<byte>
    var matchPosition: int
    var matchLength: nat

    /** The trees that the arrays hold. */
    ghost var trees: Trees

    ghost predicate Layout() {
      && lchild.Length == N + 1 && rchild.Length == N + 257 && parent.Length == N + 1
      && textBuf.Length == N + F - 1
      && lchild != rchild && lchild != parent && rchild != parent
    }

    ghost function Text(): Text
      reads textBuf
      requires Layout()
    {
      textBuf[..]
    }

    ghost function Links(): Links
      reads lchild, rchild, parent
      requires Layout()
    {
      LinkArrays(lchild[..], rchild[..], parent[..])
    }

    ghost predicate Valid()
      reads this, lchild, rchild, parent, textBuf
    {
      Layout() && Forest(trees, Text(), Links())
    }

    /** init_state: all trees empty, N - F spaces, everything else zero. */
    constructor ()
      ensures Valid() && fresh(lchild) && fresh(rchild) && fresh(parent) && fresh(textBuf)
      ensures forall c: byte :: trees[c] == Leaf
      ensures forall i :: 0 <= i < N + F - 1 ==> textBuf[i] == if i < N - F then SPACE else 0
      ensures matchLength == 0 && matchPosition == 0
    {
      lchild := new int[N + 1](_ => 0);
      rchild := new int[N + 257](_ => 0);
      parent := new int[N + 1](_ => 0);
      textBuf := new byte[N + F - 1](_ => 0);
      matchPosition, matchLength := 0, 0;
      trees := seq(256, _ => Leaf);
      new;
      for i := 0 to N - F
        modifies textBuf
        invariant forall j :: 0 <= j < N + F - 1 ==> textBuf[j] == if j < i then SPACE else 0
      {
        textBuf[i] := SPACE;
      }
      for i := N + 1 to N + 257
        modifies rchild
        invariant forall j :: N + 1 <= j < i ==> rchild[j] == NIL
      {
        rchild[i] := NIL;
      }
      for i := 0 to N
        modifies parent
        invariant forall j :: 0 <= j < i ==> parent[j] == NIL
      {
        parent[i] := NIL;
      }
      EmptyForest(trees, Text(), Links());
    }

    /** The comparison loop of insert_node; the first bytes are known to agree. */
    method CompareKeys(r: Cell, p: Cell) returns (i: nat, cmp: int)
      requires Layout() && textBuf[r] == textBuf[p]
      ensures i == Lcp(Key(Text(), r), Key(Text(), p))
      ensures if i == F then cmp == 0 else cmp != 0 && cmp == (Key(Text(), r)[i] as int) - (Key(Text(), p)[i] as int)
    {
      i, cmp := 1, 0;
      while i < F
        invariant 1 <= i <= F && cmp == 0
        invariant forall j :: 0 <= j < i ==> Key(Text(), r)[j] == Key(Text(), p)[j]
      {
        cmp := (textBuf[r + i] as int) - (textBuf[p + i] as int);
        if cmp != 0 { break; }
        i := i + 1;
      }
      LcpIsUnique(Key(Text(), r), Key(Text(), p), i);
    }

    method Supersede(r: Cell, p: Cell)
      requires Layout() && Replaceable(Links(), p) && r != p
      modifies lchild, rchild, parent
      ensures Links() == Superseded(old(Links()), r, p)
    {
      ghost var h := Links();
      parent[r] := parent[p];
      lchild[r] := lchild[p];
      rchild[r] := rchild[p];
      ghost var h1 := SetR(SetL(SetP(h, r, h.p[p]), r, h.l[p]), r, h.r[p]);
      assert Links() == h1;
      parent[lchild[p]] := r;
      parent[rchild[p]] := r;
      ghost var h2 := SetP(SetP(h1, h.l[p], r), h.r[p], r);
      assert Links() == h2;
      if rchild[parent[p]] == p {
        rchild[parent[p]] := r;
      } else {
        lchild[parent[p]] := r;
      }
      parent[p] := NIL;
    }

    /** Hangs r in the empty right or left slot of p. */
    method Attach(p: int, right: bool, r: Cell)
      requires Layout() && 0 <= p <= N + 256 && (p <= N || right)
      modifies lchild, rchild, parent
      ensures Links() == Attached(old(Links()), p, right, r)
    {
      if right { rchild[p] := r; } else { lchild[p] := r; }
      parent[r] := p;
    }

    /** Inserts the string at r, supersedes an older equal one, and finds the longest match. */
    method InsertNode(r: Cell)
      requires Valid() && !InForest(trees, Text(), r)
      modifies this`matchPosition, this`matchLength, this`trees, lchild, rchild, parent
      ensures Valid()
      ensures trees == InsertAt(old(trees), Text(), r)
      ensures Match(matchLength, matchPosition) == SearchAt(old(trees), Text(), r, old(matchPosition))
      ensures matchLength == 0 || Topmost(old(trees)[Text()[r]], Text(), r, Match(matchLength, matchPosition))
    {
      hide Forest, Walking, InForest, Plug, Insert, InsertAt, Search, SearchAt, Superseded, Attached, Replaceable;
      hide Topmost;
      ghost var ts, text, position := trees, Text(), matchPosition;
      SearchAtTopmost(ts, text, Links(), r, position);
      ForestClear(ts, text, Links(), r);
      var cmp := 1;
      var p := N + 1 + textBuf[r];
      rchild[r] := NIL;
      lchild[r] := NIL;
      matchLength := 0;
      ghost var h := Links();
      assert h == SetL(SetR(old(Links()), r, NIL), r, NIL);
      WalkStart(ts, text, h, r, position);
      ghost var ctx, sub := Top, ts[text[r]];
      while true
        invariant Links() == h && trees == ts
        invariant Walking(ts, text, h, r, position, ctx, sub, Match(matchLength, matchPosition))
        invariant matchLength < F && p == HoleUp(ctx, RootOf(text[r])) && (cmp >= 0 <==> ctx.Top? || ctx.right)
        decreases sub
      {
        ghost var best := Match(matchLength, matchPosition);
        WalkHole(ts, text, h, r, position, ctx, sub, best);
        var next := if cmp >= 0 then rchild[p] else lchild[p];
        if next == NIL {
          ForestAttach(ts, text, h, r, position, ctx, best);
          Attach(p, cmp >= 0, r);
          trees := InsertAt(ts, text, r);
          return;
        }
        p := next;
        var i;
        i, cmp := CompareKeys(r, p);
        if i > matchLength {
          matchPosition := p;
          matchLength := i;
          if matchLength >= F {
            ForestSupersede(ts, text, h, r, position, ctx, sub, best);
            break;
          }
        }
        WalkDown(ts, text, h, r, position, ctx, sub, best, cmp);
        ctx, sub := Under(ctx, sub.cell, if cmp >= 0 then sub.left else sub.right, cmp >= 0),
                    if cmp >= 0 then sub.right else sub.left;
      }
      Supersede(r, p);
      trees := InsertAt(ts, text, r);
    }

    /** The tail of delete_node: q, or NIL, is hung where p was. */
    method RelinkParent(p: Cell, q: int)
      requires Layout() && CanRelink(Links(), p, q)
      modifies lchild, rchild, parent
      ensures Links() == Relinked(old(Links()), p, q)
    {
      parent[q] := parent[p];
      if rchild[parent[p]] == p {
        rchild[parent[p]] := q;
      } else {
        lchild[parent[p]] := q;
      }
      parent[p] := NIL;
    }

    /** The inner loop of delete_node: from the left child of p to the right as far as it goes. */
    method Rightmost(q0: Cell, p: Cell, ghost ctx: Path, ghost a: Tree, ghost b: Tree)
      returns (q: Cell, ghost c: Path, ghost sub: Tree)
      requires Layout()
      requires Standing(trees, Text(), Links(), p, ctx, a, b) && a.Node? && q0 == a.cell && rchild[q0] != NIL
      ensures Descending(c, sub, Under(ctx, p, b, false), a)
      ensures q == sub.cell && sub.right.Leaf? && c.Under? && c.right && a.right.Node?
      ensures q == Max(a)
    {
      hide Standing, Descending, Max;
      ghost var top := Under(ctx, p, b, false);
      DescendStart(ctx, a, p, b);
      DescendHole(trees, Text(), Links(), p, ctx, a, b, top, a);
      DescendStep(top, a, top, a);
      q := rchild[q0];
      c, sub := Under(top, a.cell, a.left, true), a.right;
      DescendHole(trees, Text(), Links(), p, ctx, a, b, c, sub);
      while rchild[q] != NIL
        invariant Descending(c, sub, top, a) && sub.Node? && q == sub.cell && c.Under? && c.right
        invariant rchild[q] == if sub.right.Leaf? then NIL else sub.right.cell
        decreases sub
      {
        DescendStep(c, sub, top, a);
        q := rchild[q];
        c, sub := Under(c, sub.cell, sub.left, true), sub.right;
        DescendHole(trees, Text(), Links(), p, ctx, a, b, c, sub);
      }
      DescendEnd(c, sub, top, a);
    }

    /** Takes q out of the right slot of its parent and gives it the left child of p. */
    method Excise(q: Cell, p: Cell)
      requires Layout() && 0 <= parent[q] <= N && 0 <= lchild[q] <= N && lchild[q] != q && q != p
      requires var h := Excised(Links(), q); 0 <= h.l[p] <= N && 0 <= h.r[p] <= N
      modifies lchild, rchild, parent
      ensures var h := Excised(old(Links()), q);
              Links() == SetP(SetL(h, q, h.l[p]), h.l[p], q)
    {
      ghost var h := Links();
      rchild[parent[q]] := lchild[q];
      parent[lchild[q]] := parent[q];
      assert Links() == Excised(h, q);
      lchild[q] := lchild[p];
      parent[lchild[p]] := q;
    }

    /** The branch of delete_node for two children: the in-order predecessor q is lifted out. */
    method LiftPredecessor(p: Cell, ghost ctx: Path, ghost a: Tree, ghost b: Tree) returns (q: Cell)
      requires Valid() && Standing(trees, Text(), Links(), p, ctx, a, b) && a.Node? && b.Node?
      requires lchild[p] == a.cell
      requires DeleteAt(trees, Text(), p) == trees[Text()[p] := Plug(ctx, Join(a, b))]
      modifies lchild, rchild, parent
      ensures CanRelink(Links(), p, q)
      ensures Forest(DeleteAt(trees, Text(), p), Text(), Relinked(Links(), p, q))
    {
      hide Forest, Standing, DeleteAt, Delete, Plug, Join, Relinked, Excised, Descending, Max, RemoveMax;
      ghost var ts, text, h := trees, Text(), Links();
      q := lchild[p];
      DescendStart(ctx, a, p, b);
      DescendHole(ts, text, h, p, ctx, a, b, Under(ctx, p, b, false), a);
      if rchild[q] != NIL {
        ghost var c, sub;
        q, c, sub := Rightmost(q, p, ctx, a, b);
        ForestMoveUp(ts, text, h, p, ctx, a, b, c, sub);
        Excise(q, p);
      } else {
        ForestPromote(ts, text, h, p, ctx, a, b);
      }
      rchild[q] := rchild[p];
      parent[rchild[p]] := q;
    }

    /** Deletes p from its tree, if it is in one. */
    method DeleteNode(p: Cell)
      requires Valid()
      modifies this`trees, lchild, rchild, parent
      ensures Valid()
      ensures trees == DeleteAt(old(trees), Text(), p)
    {
      hide Forest, Standing, InForest, DeleteAt, Delete, Plug, Join, Relinked, CanRelink, RootOf;
      ghost var ts, text, h := trees, Text(), Links();
      ParentTellsMembership(ts, text, h, p);
      if parent[p] == NIL {
        DeleteAtAbsent(ts, text, p);
        return;
      }
      ghost var ctx, a, b := StandAt(ts, text, h, p);
      var q: int;
      if rchild[p] == NIL {
        ForestRelink(ts, text, h, p, ctx, a, b);
        q := lchild[p];
      } else if lchild[p] == NIL {
        ForestRelink(ts, text, h, p, ctx, a, b);
        q := rchild[p];
      } else {
        q := LiftPredecessor(p, ctx, a, b);
      }
      RelinkParent(p, q);
      trees := DeleteAt(ts, text, p);
    }
  }
}
