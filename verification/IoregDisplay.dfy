/** What scan, search and their archiving forms show of a tree: order, depth, and the way down from the root. */
module IoregDisplay {
  import opened Common
  import opened IoregSearch
  import opened IoregPicks
  import opened IoregCoverage
  import opened IoregSelection

  // ---- the lines of scan ----

  /** Line i shows a child of the entry on the nearest line above that is one level less deep. */
  ghost predicate HasParent(lines: seq<Line>, i: nat)
    requires i < |lines|
  {
    exists j :: 0 <= j < i && IsParent(lines, j, i)
  }

  ghost predicate IsParent(lines: seq<Line>, j: nat, i: nat)
    requires j < i < |lines|
  {
    && lines[j].Shown? && lines[i].Shown? && lines[i].depth == lines[j].depth + 1
    && lines[i].entry in lines[j].entry.children
    && forall k :: j < k < i ==> lines[k].Shown? && lines[k].depth >= lines[i].depth
  }

  /** All lines show entries at depth d or deeper; those at d are from cs, the others have their parents here. */
  ghost predicate Indented(lines: seq<Line>, cs: seq<Entry>, d: nat) {
    forall i :: 0 <= i < |lines| ==>
      && lines[i].Shown? && lines[i].depth >= d
      && (if lines[i].depth == d then lines[i].entry in cs else HasParent(lines, i))
  }

  lemma ParentStays(a: seq<Line>, b: seq<Line>, i: nat)
    requires i < |b| && HasParent(b, i)
    ensures HasParent(a + b, |a| + i)
  {
    var j :| 0 <= j < i && IsParent(b, j, i);
    var s := a + b;
    assert forall k :: 0 <= k < |b| ==> s[|a| + k] == b[k];
    assert forall k :: |a| + j < k < |a| + i ==> s[k] == b[k - |a|];
    assert IsParent(s, |a| + j, |a| + i);
  }

  lemma ParentStaysFront(a: seq<Line>, b: seq<Line>, i: nat)
    requires i < |a| && HasParent(a, i)
    ensures HasParent(a + b, i)
  {
    var j :| 0 <= j < i && IsParent(a, j, i);
    assert forall k :: 0 <= k < |a| ==> (a + b)[k] == a[k];
    assert IsParent(a + b, j, i);
  }

  lemma IndentedConcat(a: seq<Line>, b: seq<Line>, cs: seq<Entry>, d: nat)
    requires Indented(a, cs, d) && Indented(b, cs, d)
    ensures Indented(a + b, cs, d)
  {
    var s := a + b;
    forall i | 0 <= i < |s|
      ensures s[i].Shown? && s[i].depth >= d && (if s[i].depth == d then s[i].entry in cs else HasParent(s, i))
    {
      if i < |a| {
        if s[i].depth > d { ParentStaysFront(a, b, i); }
      } else if s[i].depth > d {
        ParentStays(a, b, i - |a|);
      }
    }
  }

  /** An entry above lines that are indented below it. */
  lemma IndentedUnder(e: Entry, d: nat, below: seq<Line>)
    requires Indented(below, e.children, d + 1)
    ensures Indented([Shown(e, d)] + below, [e], d)
  {
    var s := [Shown(e, d)] + below;
    forall i | 0 <= i < |s|
      ensures s[i].Shown? && s[i].depth >= d && (if s[i].depth == d then s[i].entry in [e] else HasParent(s, i))
    {
      if i > 0 {
        assert s[i] == below[i - 1];
        if s[i].depth == d + 1 {
          assert forall k :: 0 < k < i ==> s[k] == below[k - 1];
          assert IsParent(s, 0, i);
        } else {
          ParentStays([Shown(e, d)], below, i - 1);
        }
      }
    }
  }

  /** The lines of scan begin with the entry itself and are indented like the tree. */
  lemma {:induction false} ScanIndented(e: Entry, depth: nat, limit: nat)
    ensures var lines := ScanLines(e, depth, limit);
            lines != [] && lines[0] == Shown(e, depth) && Indented(lines, [e], depth)
    decreases e, 1
  {
    var below := if Deeper(limit, depth) then ScanAll(e.children, depth + 1, limit) else [];
    if Deeper(limit, depth) { ScanAllIndented(e.children, depth + 1, limit); }
    hide Indented, ScanAll;
    NothingIndented(e.children, depth + 1);
    IndentedUnder(e, depth, below);
  }

  lemma NothingIndented(cs: seq<Entry>, d: nat)
    ensures Indented([], cs, d)
  {
  }

  lemma {:induction false} ScanAllIndented(cs: seq<Entry>, depth: nat, limit: nat)
    ensures Indented(ScanAll(cs, depth, limit), cs, depth)
    decreases cs, 0
  {
    if cs == [] { return; }
    var a, b := ScanLines(cs[0], depth, limit), ScanAll(cs[1..], depth, limit);
    ScanIndented(cs[0], depth, limit);
    ScanAllIndented(cs[1..], depth, limit);
    assert Indented(a, cs, depth) && Indented(b, cs, depth);
    hide Indented;
    IndentedConcat(a, b, cs, depth);
  }

  // ---- raising a tree ----

  function Raised(line: Line, k: nat): Line {
    match line
    case Shown(e, d) => Shown(e, d + k)
    case Blank => Blank
  }

  function RaisedAll(lines: seq<Line>, k: nat): (raised: seq<Line>)
    ensures |raised| == |lines| && forall i :: 0 <= i < |lines| ==> raised[i] == Raised(lines[i], k)
  {
    seq(|lines|, i requires 0 <= i < |lines| => Raised(lines[i], k))
  }

  lemma RaisedConcat(a: seq<Line>, b: seq<Line>, k: nat)
    ensures RaisedAll(a + b, k) == RaisedAll(a, k) + RaisedAll(b, k)
  {
  }

  function More(limit: nat, k: nat): nat { if limit > 0 then limit + k else 0 }

  /** Raising depth and limit together raises every line. */
  lemma {:induction false} ScanRaised(e: Entry, d: nat, limit: nat, k: nat)
    ensures ScanLines(e, d + k, More(limit, k)) == RaisedAll(ScanLines(e, d, limit), k)
    decreases e, 1
  {
    ScanAllRaised(e.children, d + 1, limit, k);
    var below := if Deeper(limit, d) then ScanAll(e.children, d + 1, limit) else [];
    RaisedConcat([Shown(e, d)], below, k);
    assert RaisedAll([Shown(e, d)], k) == [Shown(e, d + k)] && RaisedAll([], k) == [];
  }

  lemma {:induction false} ScanAllRaised(cs: seq<Entry>, d: nat, limit: nat, k: nat)
    ensures ScanAll(cs, d + k, More(limit, k)) == RaisedAll(ScanAll(cs, d, limit), k)
    decreases cs, 0
  {
    if cs == [] { return; }
    ScanRaised(cs[0], d, limit, k);
    ScanAllRaised(cs[1..], d, limit, k);
    RaisedConcat(ScanLines(cs[0], d, limit), ScanAll(cs[1..], d, limit), k);
  }

  /** A limit that is not below the height is no limit. */
  lemma {:induction false} ScanDeep(e: Entry, d: nat, limit: nat)
    requires limit >= d + Height(e)
    ensures ScanLines(e, d, limit) == ScanLines(e, d, 0)
    decreases e, 1
  {
    if e.children != [] {
      assert HeightAll(e.children) >= Height(e.children[0]) >= 1;
      ScanAllDeep(e.children, d + 1, limit);
    }
  }

  lemma {:induction false} ScanAllDeep(cs: seq<Entry>, d: nat, limit: nat)
    requires limit >= d + HeightAll(cs)
    ensures ScanAll(cs, d, limit) == ScanAll(cs, d, 0)
    decreases cs, 0
  {
    if cs != [] {
      ScanDeep(cs[0], d, limit);
      ScanAllDeep(cs[1..], d, limit);
    }
  }

  /** The lines of tree mode are those of the depth option, raised, exactly if the addition does not go too far. */
  lemma RaisedScan(e: Entry, d: nat, depth: Word32)
    requires d + Height(e) < TWO32
    ensures ScanLines(e, d, if depth != 0 then Add32(depth, d) else 0) == RaisedAll(ScanLines(e, 0, depth), d) <==>
            d + depth <= TWO32 || e.children == []
  {
    ScanRaised(e, 0, depth, d);
    if d + depth == TWO32 {
      ScanRaised(e, 0, 0, d);
      ScanDeep(e, 0, depth);
    } else if d + depth > TWO32 && e.children != [] {
      ScanIndented(e.children[0], 1, depth);
      assert |ScanAll(e.children, 1, depth)| > 0;
      assert |ScanLines(e, 0, depth)| > 1 && |ScanLines(e, d, Add32(depth, d))| == 1;
    }
  }

  // ---- the block of a selected entry ----

  /** Without tree display: the entry at depth 0, its tree indented below it, and a blank line. */
  lemma PlainBlock(p: Pick)
    ensures var b := Block(p, false);
            && |b| >= 2 && b[0] == Shown(p.entry, 0) && b[|b| - 1] == Blank
            && Indented(b[..|b| - 1], [p.entry], 0)
  {
    var lines := ScanLines(p.entry, 0, p.depth);
    ScanIndented(p.entry, 0, p.depth);
    hide Indented, ScanLines;
    assert Block(p, false)[..|Block(p, false)| - 1] == lines;
  }

  /**
   * With tree display: line i shows the i-th entry of the real root path at depth i, then come the lines of
   * the block without tree display, every one as much deeper; the latter exactly if the addition does not go too far.
   */
  lemma TreeBlock(root: Entry, o: Options, p: Pick)
    requires o.tree && p in Select(root, 0, [], o) && Height(root) < TWO32
    ensures RootPath(p.path + [p.entry], root)
    ensures var (b, d) := (Block(p, true), |p.path|);
            && |b| >= d + 2 && b[|b| - 1] == Blank
            && (forall i :: 0 <= i < d ==> b[i] == Shown(p.path[i], i)) && b[d] == Shown(p.entry, d)
            && (b[d..] == RaisedAll(Block(p, false), d) <==> d + p.depth <= TWO32 || p.entry.children == [])
  {
    SelectPathsAreReal(root, 0, [], o, root, p);
    SelectedBeyond(root, 0, [], o, p);
    var d := |p.path|;
    var limit := if p.depth != 0 then Add32(p.depth, d) else 0;
    var lines, plain := ScanLines(p.entry, d, limit), ScanLines(p.entry, 0, p.depth);
    RaisedScan(p.entry, d, p.depth);
    ScanIndented(p.entry, d, limit);
    hide ScanLines, Indented, Select;
    var b := Block(p, true);
    assert b == PathLines(p.path) + (lines + [Blank]);
    assert b[d..] == lines + [Blank];
    RaisedConcat(plain, [Blank], d);
    assert RaisedAll([Blank], d) == [Blank];
    SameBlank(lines, RaisedAll(plain, d));
  }

  lemma SameBlank(a: seq<Line>, b: seq<Line>)
    ensures a + [Blank] == b + [Blank] <==> a == b
  {
    if a + [Blank] == b + [Blank] {
      assert a == (a + [Blank])[..|a|] && b == (b + [Blank])[..|b|];
    }
  }

  // ---- archives ----

  /** x holds the first levels of e's tree: every child in its place, and nothing for entries without any. */
  ghost predicate Mirrors(x: Plist, e: Entry, levels: nat)
    decreases e
  {
    && x.entry == e
    && if levels <= 1 || e.children == [] then x.kids.Absent?
       else
         && x.kids.Array? && |x.kids.items| == |e.children|
         && forall i :: 0 <= i < |e.children| ==> Mirrors(x.kids.items[i], e.children[i], levels - 1)
  }

  lemma {:induction false} ArchiveMirrors(e: Entry, depth: nat, limit: nat, all: nat)
    requires all >= Height(e) && (limit == 0 || limit > depth)
    ensures Mirrors(ArchiveTree(e, depth, limit), e, Levels(limit, depth, all))
    decreases e, 1
  {
    if Deeper(limit, depth) && e.children != [] {
      assert HeightAll(e.children) >= Height(e.children[0]) >= 1;
      ArchiveAllMirrors(e.children, depth + 1, limit, all - 1);
    }
  }

  lemma {:induction false} ArchiveAllMirrors(cs: seq<Entry>, depth: nat, limit: nat, all: nat)
    requires all >= HeightAll(cs) && (limit == 0 || limit > depth)
    ensures var xs := ArchiveAll(cs, depth, limit);
            forall i :: 0 <= i < |cs| ==> Mirrors(xs[i], cs[i], Levels(limit, depth, all))
    decreases cs, 0
  {
    if cs != [] {
      ArchiveMirrors(cs[0], depth, limit, all);
      ArchiveAllMirrors(cs[1..], depth, limit, all);
    }
  }

  /** From the outside: the dictionary of the first entry holds that of the second, and so on down to x. */
  ghost predicate Nested(y: Plist, path: seq<Entry>, x: Plist) {
    if path == [] then y == x else y.entry == path[0] && y.kids.Single? && Nested(y.kids.item, path[1..], x)
  }

  lemma {:induction false} NestedInside(y: Plist, path: seq<Entry>, e: Entry, x: Plist)
    requires Nested(y, path, Dict(e, Single(x)))
    ensures Nested(y, path + [e], x)
    decreases path
  {
    if path != [] {
      assert (path + [e])[1..] == path[1..] + [e];
      NestedInside(y.kids.item, path[1..], e, x);
    }
  }

  /** The root is outermost. */
  lemma {:induction false} WrapPathNests(path: seq<Entry>, x: Plist)
    ensures Nested(WrapPath(path, x), path, x)
    decreases |path|
  {
    if path != [] {
      var front, last := path[..|path| - 1], path[|path| - 1];
      WrapPathNests(front, Dict(last, Single(x)));
      NestedInside(WrapPath(path, x), front, last, x);
      assert front + [last] == path;
    }
  }

  lemma {:induction false} NestedEntries(y: Plist, path: seq<Entry>, x: Plist)
    requires Nested(y, path, x)
    ensures Entries(y) == path + Entries(x)
    decreases path
  {
    if path == [] {
      assert [] + Entries(x) == Entries(x);
      return;
    }
    EntriesOfSingle(y);
    hide Entries;
    NestedEntries(y.kids.item, path[1..], x);
    Assoc3([path[0]], path[1..], Entries(x));
    assert [path[0]] + path[1..] == path;
  }

  lemma EntriesOfSingle(y: Plist)
    requires y.kids.Single?
    ensures Entries(y) == [y.entry] + Entries(y.kids.item)
  {
  }

  /** What archive_search has for a selected entry in tree mode, from the root down to the first levels of its tree. */
  lemma TreeArchive(root: Entry, o: Options, p: Pick)
    requires o.tree && p in Select(root, 0, [], o) && Height(root) < TWO32
    requires |p.path| + p.depth <= TWO32 || p.entry.children == []
    ensures RootPath(p.path + [p.entry], root)
    ensures Nested(Wrap(p, true), p.path, Wrap(p, false))
    ensures Entries(Wrap(p, true)) == p.path + Entries(Wrap(p, false))
    ensures Mirrors(Wrap(p, false), p.entry, Levels(p.depth, 0, TWO32))
  {
    TreeModeWraps(root, o, p);
    SelectedBeyond(root, 0, [], o, p);
    hide Wrap, Nested, Entries, Mirrors, Select;
    WrapPathNests(p.path, Wrap(p, false));
    NestedEntries(Wrap(p, true), p.path, Wrap(p, false));
    WrapMirrors(p);
  }

  lemma WrapMirrors(p: Pick)
    requires Height(p.entry) <= TWO32
    ensures Mirrors(Wrap(p, false), p.entry, Levels(p.depth, 0, TWO32))
  {
    ArchiveMirrors(p.entry, 0, p.depth, TWO32);
  }

  // ---- the order of selection ----

  /** All root paths of a tree, parents first and children in their order. */
  function Preorder(e: Entry, path: seq<Entry>): seq<seq<Entry>>
    decreases e, 1
  {
    [path + [e]] + PreorderAll(e.children, path + [e])
  }

  function PreorderAll(cs: seq<Entry>, path: seq<Entry>): seq<seq<Entry>>
    decreases cs, 0
  {
    if cs == [] then [] else Preorder(cs[0], path) + PreorderAll(cs[1..], path)
  }

  function Places(ps: seq<Pick>): seq<seq<Entry>> {
    if ps == [] then [] else [ps[0].path + [ps[0].entry]] + Places(ps[1..])
  }

  /** a is b with some elements left out. */
  ghost predicate Sub<T>(a: seq<T>, b: seq<T>)
    decreases b
  {
    a == [] || (b != [] && ((a[0] == b[0] && Sub(a[1..], b[1..])) || Sub(a, b[1..])))
  }

  lemma {:induction false} SubConcat<T>(a: seq<T>, b: seq<T>, c: seq<T>, d: seq<T>)
    requires Sub(a, b) && Sub(c, d)
    ensures Sub(a + c, b + d)
    decreases b
  {
    if b == [] {
      assert a + c == c && b + d == d;
      return;
    }
    assert (b + d)[0] == b[0] && (b + d)[1..] == b[1..] + d;
    if a != [] && a[0] == b[0] && Sub(a[1..], b[1..]) {
      assert (a + c)[0] == a[0] && (a + c)[1..] == a[1..] + c;
      SubConcat(a[1..], b[1..], c, d);
    } else {
      SubConcat(a, b[1..], c, d);
      if a == [] { assert Sub([], b[1..]); }
    }
  }

  lemma {:induction false} PlacesConcat(ps: seq<Pick>, qs: seq<Pick>)
    ensures Places(ps + qs) == Places(ps) + Places(qs)
  {
    if ps == [] {
      assert ps + qs == qs;
    } else {
      assert (ps + qs)[0] == ps[0] && (ps + qs)[1..] == ps[1..] + qs;
      PlacesConcat(ps[1..], qs);
    }
  }

  /** Entries are selected, and so printed and archived, in preorder. */
  lemma {:induction false} SelectInOrder(e: Entry, matched: nat, path: seq<Entry>, o: Options)
    ensures Sub(Places(Select(e, matched, path, o)), Preorder(e, path))
    decreases e, 1
  {
    var now := Selects(e, matched, |path|, o);
    var (m, o') := Below(e, matched, path, o);
    var first := if now then [Pick(e, path, o.depth)] else [];
    var more := SelectAll(e.children, m, path + [e], o');
    assert Select(e, matched, path, o) == first + more;
    SelectAllInOrder(e.children, m, path + [e], o');
    PlacesConcat(first, more);
    assert Places(first) == if now then [path + [e]] else [] by {
      if now { assert Places([first[0]]) == [path + [e]] + Places([]); }
    }
    hide Select, SelectAll, Places;
    assert Sub(if now then [path + [e]] else [], [path + [e]]);
    SubConcat(if now then [path + [e]] else [], [path + [e]], Places(more), PreorderAll(e.children, path + [e]));
  }

  lemma {:induction false} SelectAllInOrder(cs: seq<Entry>, matched: nat, path: seq<Entry>, o: Options)
    ensures Sub(Places(SelectAll(cs, matched, path, o)), PreorderAll(cs, path))
    decreases cs, 0
  {
    if cs == [] { return; }
    SelectInOrder(cs[0], matched, path, o);
    SelectAllInOrder(cs[1..], matched, path, o);
    PlacesConcat(Select(cs[0], matched, path, o), SelectAll(cs[1..], matched, path, o));
    SubConcat(Places(Select(cs[0], matched, path, o)), Preorder(cs[0], path),
              Places(SelectAll(cs[1..], matched, path, o)), PreorderAll(cs[1..], path));
  }
}
