/** Which entries ioreg selects, where they stand, and what tree display and archives make of them. */
module IoregSelection {
  import opened Common
  import opened IoregSearch
  import opened IoregPicks
  import opened IoregCoverage

  // ---- how far apart selected entries are ----

  lemma SameChild(path: seq<Entry>, c: Entry, d: Entry, a: seq<Entry>, b: seq<Entry>, e: Entry)
    requires path + [c] <= a <= b && path + [d] <= b + [e]
    ensures c == d
  {
    var n := |path|;
    assert c == (path + [c])[n] == a[n] == b[n] == (b + [e])[n] == (path + [d])[n] == d;
  }

  /** On any path selected entries are at least `depth` levels apart, and one alone without a depth limit. */
  lemma {:induction false} SelectedApart(e: Entry, matched: nat, path: seq<Entry>, o: Options, p: Pick, q: Pick)
    requires p in Select(e, matched, path, o) && q in Select(e, matched, path, o)
    requires |path| + Height(e) < TWO32 && Fits(Height(e), |path|, o) && p.path + [p.entry] <= q.path
    ensures o.depth != 0 && |q.path| >= |p.path| + o.depth
    decreases e
  {
    var (m, o') := Below(e, matched, path, o);
    var c := SelectCases(e, matched, path, o, p);
    var d := SelectCases(e, matched, path, o, q);
    SelectedBeyond(e, matched, path, o, p);
    SelectedBeyond(d, m, path + [e], o', q);
    if p != Pick(e, path, o.depth) || !Selects(e, matched, |path|, o) {
      SelectedBeyond(c, m, path + [e], o', p);
      SameChild(path + [e], c, d, p.path + [p.entry], q.path, q.entry);
      SelectedApart(c, m, path + [e], o', p, q);
    }
  }

  ghost predicate Apart(ps: seq<Pick>, limit: nat) {
    forall p, q :: p in ps && q in ps && p.path + [p.entry] <= q.path ==> limit != 0 && |q.path| >= |p.path| + limit
  }

  /** And this, with or without tree display, exactly for the same depth options. */
  lemma SelectedApartExactly(root: Entry, depth: Word32, tree: bool)
    requires Height(root) < TWO32
    ensures (forall matches: Entry -> bool :: Apart(Select(root, 0, [], Options(depth, tree, matches)), depth)) <==>
            Height(root) + depth <= TWO32 + 1
  {
    if Height(root) + depth <= TWO32 + 1 {
      forall matches: Entry -> bool ensures Apart(Select(root, 0, [], Options(depth, tree, matches)), depth) {
        var o := Options(depth, tree, matches);
        forall p, q | p in Select(root, 0, [], o) && q in Select(root, 0, [], o) && p.path + [p.entry] <= q.path
          ensures depth != 0 && |q.path| >= |p.path| + depth
        {
          SelectedApart(root, 0, [], o, p, q);
        }
      }
    } else {
      var o := WrappingOptions(root, depth, tree);
      var p, q := BothSelected(root, [], o, TWO32 - depth);
      assert !Apart(Select(root, 0, [], Options(depth, tree, o.matches)), depth);
    }
  }

  // ---- tree display ----

  /** Within the bound the tree display does not change what is selected. */
  lemma {:induction false} SelectAlike(e: Entry, matched: nat, path: seq<Entry>, o: Options)
    requires |path| + Height(e) < TWO32 && Fits(Height(e), |path|, o)
    ensures Select(e, matched, path, o) == Select(e, matched, path, o.(tree := false))
    decreases e, 1
  {
    var (m, o') := Below(e, matched, path, o);
    if o' == o {
      SelectAllAlike(e.children, m, path + [e], o);
    } else {
      assert HeightAll(e.children) == 0 && e.children == [];
    }
  }

  lemma {:induction false} SelectAllAlike(cs: seq<Entry>, matched: nat, path: seq<Entry>, o: Options)
    requires |path| + HeightAll(cs) < TWO32 && Fits(HeightAll(cs), |path|, o)
    ensures SelectAll(cs, matched, path, o) == SelectAll(cs, matched, path, o.(tree := false))
    decreases cs, 0
  {
    if cs != [] {
      SelectAlike(cs[0], matched, path, o);
      SelectAllAlike(cs[1..], matched, path, o);
    }
  }

  /** Without tree display every entry is selected under the depth option as given. */
  lemma {:induction false} DepthStays(e: Entry, matched: nat, path: seq<Entry>, o: Options, p: Pick)
    requires !o.tree && p in Select(e, matched, path, o)
    ensures p.depth == o.depth
    decreases e
  {
    var c := SelectCases(e, matched, path, o, p);
    var (m, o') := Below(e, matched, path, o);
    if p != Pick(e, path, o.depth) || !Selects(e, matched, |path|, o) { DepthStays(c, m, path + [e], o', p); }
  }

  ghost predicate Alike(root: Entry, o: Options) {
    Select(root, 0, [], o) == Select(root, 0, [], o.(tree := false))
  }

  /** Beyond it the depth option is lost below some match; so the bound is exact here, too. */
  lemma TreeModeSelectsAlikeExactly(root: Entry, depth: Word32)
    requires Height(root) < TWO32
    ensures (forall matches: Entry -> bool :: Alike(root, Options(depth, true, matches))) <==>
            Height(root) + depth <= TWO32 + 1
  {
    if Height(root) + depth <= TWO32 + 1 {
      forall matches: Entry -> bool ensures Alike(root, Options(depth, true, matches)) {
        SelectAlike(root, 0, [], Options(depth, true, matches));
      }
    } else {
      var o := WrappingOptions(root, depth, true);
      var p, q := BothSelected(root, [], o, TWO32 - depth);
      if q in Select(root, 0, [], Options(depth, false, o.matches)) {
        DepthStays(root, 0, [], Options(depth, false, o.matches), q);
      }
      assert !Alike(root, Options(depth, true, o.matches));
    }
  }

  // ---- the bound at work: a chain of four entries, and `-d -1`, which is stored as the largest UInt32 ----

  const LOWEST := Entry(4, [])
  const LOW := Entry(3, [LOWEST])
  const HIGH := Entry(2, [LOW])
  const HIGHEST := Entry(1, [HIGH])

  /** Everything but the root matches. */
  function MinusOne(tree: bool): Options { Options(UINT32_MAX, tree, (e: Entry) => e.id > 1) }

  lemma ChainHeight()
    ensures Height(LOWEST) == 1 && Height(LOW) == 2 && Height(HIGH) == 3 && Height(HIGHEST) == 4
    ensures HeightAll([LOW]) == 2 && HeightAll([LOWEST]) == 1
  {
    assert HeightAll([LOWEST]) == Height(LOWEST);
    assert HeightAll([LOW]) == Height(LOW);
    assert HeightAll([HIGH]) == Height(HIGH);
  }

  /** The selection among one child, and from a selected or an unselected entry to its child. */
  lemma SelectOnly(c: Entry, matched: nat, path: seq<Entry>, o: Options)
    ensures SelectAll([c], matched, path, o) == Select(c, matched, path, o) && SelectAll([], matched, path, o) == []
  {
    assert SelectAll([c], matched, path, o) == Select(c, matched, path, o) + SelectAll([], matched, path, o);
  }

  /**
   * Without tree display the match at depth 1 suppresses nothing, and the entry below it is printed with it and
   * again; with tree display the depth option is 0 from there on, and the lowest entry is not selected.
   */
  lemma WrappedDepth()
    ensures Select(HIGHEST, 0, [], MinusOne(false)) ==
            [Pick(HIGH, [HIGHEST], UINT32_MAX), Pick(LOW, [HIGHEST, HIGH], UINT32_MAX),
             Pick(LOWEST, [HIGHEST, HIGH, LOW], UINT32_MAX)]
    ensures Select(HIGHEST, 0, [], MinusOne(true)) == [Pick(HIGH, [HIGHEST], UINT32_MAX), Pick(LOW, [HIGHEST, HIGH], 0)]
  {
    WrappedDepthBelow(false);
    WrappedDepthBelow(true);
    forall tree: bool ensures Select(HIGHEST, 0, [], MinusOne(tree)) == Select(HIGH, 0, [HIGHEST], MinusOne(tree)) {
      SelectOnly(HIGH, 0, [HIGHEST], MinusOne(tree));
      assert [] + [HIGHEST] == [HIGHEST];
    }
  }

  function TwoMatches(): Options { Options(UINT32_MAX, false, (e: Entry) => e == HIGH || e == LOW) }

  lemma TwoSelected()
    ensures Select(HIGHEST, 0, [], TwoMatches()) ==
            [Pick(HIGH, [HIGHEST], UINT32_MAX)] + [Pick(LOW, [HIGHEST, HIGH], UINT32_MAX)]
  {
    var o := TwoMatches();
    assert [] + [HIGHEST] == [HIGHEST] && [HIGHEST] + [HIGH] == [HIGHEST, HIGH];
    assert Suppress(o, 1) == 0 && Suppress(o, 2) == 1;
    SelectOnly(HIGH, 0, [HIGHEST], o);
    SelectOnly(LOW, 0, [HIGHEST, HIGH], o);
    SelectOnly(LOWEST, 1, [HIGHEST, HIGH] + [LOW], o);
    SelectOnly(LOWEST, 1, [HIGHEST, HIGH] + [LOW] + [LOWEST], o);
  }

  /** With two matches on the chain the lower one is printed twice. */
  lemma WrappedDepthPrintsTwice()
    ensures Printed(Blocks(Select(HIGHEST, 0, [], TwoMatches()), false))[LOW] == 2 && Bag(HIGHEST)[LOW] == 1
  {
    var p, q := Pick(HIGH, [HIGHEST], UINT32_MAX), Pick(LOW, [HIGHEST, HIGH], UINT32_MAX);
    ChainHeight();
    ChainBag();
    TwoSelected();
    hide Select, Top, Bag, Height, Printed, Blocks;
    PrintedForConcat([p], [q]);
    BlockPrints(p, UINT32_MAX);
    BlockPrints(q, UINT32_MAX);
    TopOfHeight(HIGH, UINT32_MAX);
    TopOfHeight(LOW, UINT32_MAX);
  }

  lemma ChainBag()
    ensures Bag(LOW) == multiset{LOW, LOWEST} && Bag(HIGH) == multiset{HIGH, LOW, LOWEST}
    ensures Bag(HIGHEST) == multiset{HIGHEST, HIGH, LOW, LOWEST}
  {
    assert Bag(LOWEST) == multiset{LOWEST} + BagAll([]) && BagAll([LOWEST]) == Bag(LOWEST) + BagAll([]);
    assert Bag(LOW) == multiset{LOW} + BagAll([LOWEST]) && BagAll([LOW]) == Bag(LOW) + BagAll([]);
    assert Bag(HIGH) == multiset{HIGH} + BagAll([LOW]) && BagAll([HIGH]) == Bag(HIGH) + BagAll([]);
    assert Bag(HIGHEST) == multiset{HIGHEST} + BagAll([HIGH]);
  }

  lemma WrappedDepthBelow(tree: bool)
    ensures Select(HIGH, 0, [HIGHEST], MinusOne(tree)) ==
            [Pick(HIGH, [HIGHEST], UINT32_MAX)]
            + if tree then [Pick(LOW, [HIGHEST, HIGH], 0)]
              else [Pick(LOW, [HIGHEST, HIGH], UINT32_MAX), Pick(LOWEST, [HIGHEST, HIGH, LOW], UINT32_MAX)]
  {
    var o := MinusOne(tree);
    var o' := Restored(o, 1);
    assert [HIGHEST] + [HIGH] == [HIGHEST, HIGH] && [HIGHEST, HIGH] + [LOW] == [HIGHEST, HIGH, LOW];
    assert Suppress(o, 1) == 0 && Suppress(o, 2) == 1 && o' == if tree then o.(depth := 0) else o;
    SelectOnly(LOW, 0, [HIGHEST, HIGH], o');
    SelectOnly(LOWEST, Suppress(o', 2), [HIGHEST, HIGH, LOW], o');
    SelectOnly(LOWEST, Suppress(o', 3), [HIGHEST, HIGH, LOW, LOWEST], Restored(o', 3));
  }

  // ---- archives and tree mode ----

  /** Consecutive entries are parent and child, from the root on. */
  ghost predicate RootPath(path: seq<Entry>, root: Entry) {
    && |path| > 0 && path[0] == root
    && forall i :: 0 < i < |path| ==> path[i] in path[i - 1].children
  }

  lemma ExtendPath(path: seq<Entry>, c: Entry, root: Entry)
    requires RootPath(path, root) && c in path[|path| - 1].children
    ensures RootPath(path + [c], root)
  {
    var longer := path + [c];
    forall i | 0 < i < |longer| ensures longer[i] in longer[i - 1].children {
      assert longer[i - 1] == path[i - 1];
    }
  }

  /** The path recorded with a selected entry is a path of the registry, and the entry matches. */
  lemma {:induction false} SelectPathsAreReal(e: Entry, matched: nat, path: seq<Entry>, o: Options, root: Entry,
      p: Pick)
    requires RootPath(path + [e], root) && p in Select(e, matched, path, o)
    ensures RootPath(p.path + [p.entry], root) && o.matches(p.entry)
    decreases e
  {
    var c := SelectCases(e, matched, path, o, p);
    var (m, o') := Below(e, matched, path, o);
    if p != Pick(e, path, o.depth) || !Selects(e, matched, |path|, o) {
      ExtendPath(path + [e], c, root);
      SelectPathsAreReal(c, m, path + [e], o', root, p);
    }
  }

  /** Raising depth and limit together changes nothing, and without a limit the depth does not matter. */
  lemma {:induction false} ArchiveShift(e: Entry, d: nat, limit: nat, k: nat)
    ensures ArchiveTree(e, d + k, if limit > 0 then limit + k else 0) == ArchiveTree(e, d, limit)
    decreases e, 1
  {
    ArchiveAllShift(e.children, d + 1, limit, k);
  }

  lemma {:induction false} ArchiveAllShift(cs: seq<Entry>, d: nat, limit: nat, k: nat)
    ensures ArchiveAll(cs, d + k, if limit > 0 then limit + k else 0) == ArchiveAll(cs, d, limit)
    decreases cs, 0
  {
    if cs != [] {
      ArchiveShift(cs[0], d, limit, k);
      ArchiveAllShift(cs[1..], d, limit, k);
    }
  }

  /** A limit that is not below the height is no limit. */
  lemma {:induction false} ArchiveDeep(e: Entry, d: nat, limit: nat)
    requires limit >= d + Height(e)
    ensures ArchiveTree(e, d, limit) == ArchiveTree(e, d, 0)
    decreases e, 1
  {
    if e.children != [] { ArchiveAllDeep(e.children, d + 1, limit); }
  }

  lemma {:induction false} ArchiveAllDeep(cs: seq<Entry>, d: nat, limit: nat)
    requires limit >= d + HeightAll(cs)
    ensures ArchiveAll(cs, d, limit) == ArchiveAll(cs, d, 0)
    decreases cs, 0
  {
    if cs != [] {
      ArchiveDeep(cs[0], d, limit);
      ArchiveAllDeep(cs[1..], d, limit);
    }
  }

  lemma {:induction false} WrapPathInjective(path: seq<Entry>, x: Plist, y: Plist)
    requires WrapPath(path, x) == WrapPath(path, y)
    ensures x == y
    decreases |path|
  {
    if path != [] {
      var last := path[|path| - 1];
      WrapPathInjective(path[..|path| - 1], Dict(last, Single(x)), Dict(last, Single(y)));
    }
  }

  /** The limit that tree mode passes on shows as many levels as the depth option says, exactly if it does not wrap. */
  lemma RaisedLimit(e: Entry, d: nat, depth: Word32)
    requires d + Height(e) < TWO32
    ensures ArchiveTree(e, d, if depth != 0 then Add32(depth, d) else 0) == ArchiveTree(e, 0, depth) <==>
            d + depth <= TWO32 || e.children == []
  {
    ArchiveShift(e, 0, depth, d);
    if d + depth == TWO32 {
      ArchiveShift(e, 0, 0, d);
      ArchiveDeep(e, 0, depth);
    }
  }

  /**
   * In tree mode a selected entry lies, with the dictionary that it has otherwise, inside those of its real
   * root path; the dictionary is the same exactly if the addition does not go past 2^32 or there are no children.
   */
  lemma TreeModeWraps(root: Entry, o: Options, p: Pick)
    requires o.tree && p in Select(root, 0, [], o) && Height(root) < TWO32
    ensures RootPath(p.path + [p.entry], root)
    ensures Wrap(p, true) == WrapPath(p.path, Wrap(p, false)) <==>
            |p.path| + p.depth <= TWO32 || p.entry.children == []
  {
    SelectPathsAreReal(root, 0, [], o, root, p);
    SelectedBeyond(root, 0, [], o, p);
    RaisedLimit(p.entry, |p.path|, p.depth);
    var d := |p.path|;
    var raised := ArchiveTree(p.entry, d, if p.depth != 0 then Add32(p.depth, d) else 0);
    if WrapPath(p.path, raised) == WrapPath(p.path, Wrap(p, false)) {
      WrapPathInjective(p.path, raised, Wrap(p, false));
    }
  }

  /** The entries of an archived tree, in preorder. */
  function Entries(x: Plist): seq<Entry>
    decreases x, 1
  {
    [x.entry] + match x.kids
                case Absent => []
                case Array(items) => EntriesAll(items)
                case Single(item) => Entries(item)
  }

  function EntriesAll(xs: seq<Plist>): seq<Entry>
    decreases xs, 0
  {
    if xs == [] then [] else Entries(xs[0]) + EntriesAll(xs[1..])
  }

  function Name(line: Line): seq<Entry> {
    if line.Shown? then [line.entry] else []
  }

  function Names(lines: seq<Line>): seq<Entry> {
    if lines == [] then [] else Name(lines[0]) + Names(lines[1..])
  }

  lemma {:induction false} NamesConcat(a: seq<Line>, b: seq<Line>)
    ensures Names(a + b) == Names(a) + Names(b)
  {
    if a == [] {
      assert a + b == b;
      return;
    }
    assert (a + b)[0] == a[0] && (a + b)[1..] == a[1..] + b;
    assert Names(a + b) == Name(a[0]) + Names(a[1..] + b) && Names(a) == Name(a[0]) + Names(a[1..]);
    hide Name, Names;
    NamesConcat(a[1..], b);
    assert Name(a[0]) + (Names(a[1..]) + Names(b)) == Name(a[0]) + Names(a[1..]) + Names(b);
  }

  /** An archive holds exactly the entries that scan prints, in the same order. */
  lemma {:induction false} ArchiveMatchesScan(e: Entry, depth: nat, limit: nat)
    ensures Entries(ArchiveTree(e, depth, limit)) == Names(ScanLines(e, depth, limit))
    decreases e, 1
  {
    var below := if Deeper(limit, depth) then ScanAll(e.children, depth + 1, limit) else [];
    assert ([Shown(e, depth)] + below)[1..] == below;
    if Deeper(limit, depth) {
      ArchiveAllMatchesScan(e.children, depth + 1, limit);
    }
  }

  lemma {:induction false} ArchiveAllMatchesScan(cs: seq<Entry>, depth: nat, limit: nat)
    ensures EntriesAll(ArchiveAll(cs, depth, limit)) == Names(ScanAll(cs, depth, limit))
    decreases cs, 0
  {
    if cs != [] {
      ArchiveMatchesScan(cs[0], depth, limit);
      ArchiveAllMatchesScan(cs[1..], depth, limit);
      NamesConcat(ScanLines(cs[0], depth, limit), ScanAll(cs[1..], depth, limit));
    }
  }
}
