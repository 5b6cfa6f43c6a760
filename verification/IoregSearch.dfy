/** The registry traversals of src/ioreg.c: scan, search, archive_scan and archive_search. */
module IoregSearch {
  import opened Common

  const UINT32_MAX := TWO32 - 1

  /** A registry entry with its children in one plane, in iterator order. */
  datatype Entry = Entry(id: nat, children: seq<Entry>)

  /** The options that steer the traversals; `matches` stands for compare(). */
  datatype Options = Options(depth: Word32, tree: bool, matches: Entry -> bool)

  /** What show() and println("") leave on the screen. */
  datatype Line = Shown(entry: Entry, depth: nat) | Blank

  function Height(e: Entry): (h: nat)
    ensures h >= 1
    decreases e, 1
  {
    1 + HeightAll(e.children)
  }

  function HeightAll(cs: seq<Entry>): nat
    decreases cs, 0
  {
    if cs == [] then 0
    else var (h, t) := (Height(cs[0]), HeightAll(cs[1..])); if h > t then h else t
  }

  lemma {:induction false} HeightOfChild(cs: seq<Entry>, i: nat)
    requires i < |cs|
    ensures Height(cs[i]) <= HeightAll(cs)
  {
    if i > 0 { HeightOfChild(cs[1..], i - 1); }
  }

  // ---- scan ----

  /** Whether the entries below one at this depth are visited. */
  predicate Deeper(limit: nat, depth: nat) {
    limit == 0 || limit > depth + 1
  }

  function ScanLines(e: Entry, depth: nat, limit: nat): seq<Line>
    decreases e, 1
  {
    [Shown(e, depth)] + if Deeper(limit, depth) then ScanAll(e.children, depth + 1, limit) else []
  }

  function ScanAll(cs: seq<Entry>, depth: nat, limit: nat): seq<Line>
    decreases cs, 0
  {
    if cs == [] then [] else ScanLines(cs[0], depth, limit) + ScanAll(cs[1..], depth, limit)
  }

  lemma {:induction false} ScanAllAppend(cs: seq<Entry>, c: Entry, depth: nat, limit: nat)
    ensures ScanAll(cs + [c], depth, limit) == ScanAll(cs, depth, limit) + ScanLines(c, depth, limit)
  {
    if cs == [] {
      assert [] + [c] == [c] && [c][1..] == [];
    } else {
      assert (cs + [c])[0] == cs[0] && (cs + [c])[1..] == cs[1..] + [c];
      ScanAllAppend(cs[1..], c, depth, limit);
    }
  }

  /** The lines after the first i children. */
  ghost predicate Scanned(lines: seq<Line>, e: Entry, i: nat, depth: nat, limit: nat) {
    i <= |e.children| && lines == [Shown(e, depth)] + ScanAll(e.children[..i], depth + 1, limit)
  }

  lemma ScannedNext(lines: seq<Line>, e: Entry, i: nat, depth: nat, limit: nat)
    requires Scanned(lines, e, i, depth, limit) && i < |e.children|
    ensures Scanned(lines + ScanLines(e.children[i], depth + 1, limit), e, i + 1, depth, limit)
  {
    var cs := e.children;
    ScanAllAppend(cs[..i], cs[i], depth + 1, limit);
    assert cs[..i + 1] == cs[..i] + [cs[i]];
  }

  method Scan(service: Entry, serviceDepth: nat, depth: nat) returns (lines: seq<Line>)
    requires serviceDepth + Height(service) < TWO32
    ensures lines == ScanLines(service, serviceDepth, depth)
    decreases service
  {
    lines := [Shown(service, serviceDepth)];
    if depth == 0 || depth > Add32(serviceDepth, 1) {
      var children := service.children;
      for i := 0 to |children|
        invariant Scanned(lines, service, i, serviceDepth, depth)
      {
        HeightOfChild(children, i);
        ScannedNext(lines, service, i, serviceDepth, depth);
        hide Scanned;
        var more := Scan(children[i], Add32(serviceDepth, 1), depth);
        lines := lines + more;
      }
      assert children[..|children|] == children;
    }
  }

  // ---- which entries are selected ----

  /** A selected entry, the entries above it from the root down, and the depth option it was selected under. */
  datatype Pick = Pick(entry: Entry, path: seq<Entry>, depth: Word32)

  /** The depth up to which a match at this depth suppresses further matches. */
  function Suppress(o: Options, depth: nat): nat {
    if o.depth != 0 then Add32(depth, o.depth) else UINT32_MAX
  }

  /**
   * The options after a match. Around the tree display the depth option is raised by the depth of the
   * match and, unless that makes it 0, lowered again: a sum of exactly 2^32 leaves it at 0.
   */
  function Restored(o: Options, depth: nat): Options {
    if o.tree && Add32(o.depth, depth) == 0 then o.(depth := 0) else o
  }

  predicate Selects(e: Entry, matched: nat, depth: nat, o: Options) {
    matched < depth + 1 && o.matches(e)
  }

  /** The selected entries below (and including) e, in preorder. */
  function Select(e: Entry, matched: nat, path: seq<Entry>, o: Options): seq<Pick>
    decreases e, 1
  {
    var now := Selects(e, matched, |path|, o);
    var matched' := if now then Suppress(o, |path|) else matched;
    var o' := if now then Restored(o, |path|) else o;
    (if now then [Pick(e, path, o.depth)] else []) + SelectAll(e.children, matched', path + [e], o')
  }

  function SelectAll(cs: seq<Entry>, matched: nat, path: seq<Entry>, o: Options): seq<Pick>
    decreases cs, 0
  {
    if cs == [] then [] else Select(cs[0], matched, path, o) + SelectAll(cs[1..], matched, path, o)
  }

  lemma {:induction false} SelectAllAppend(cs: seq<Entry>, c: Entry, matched: nat, path: seq<Entry>, o: Options)
    ensures SelectAll(cs + [c], matched, path, o) == SelectAll(cs, matched, path, o) + Select(c, matched, path, o)
  {
    if cs == [] {
      assert [] + [c] == [c] && [c][1..] == [];
    } else {
      assert (cs + [c])[0] == cs[0] && (cs + [c])[1..] == cs[1..] + [c];
      SelectAllAppend(cs[1..], c, matched, path, o);
    }
  }

  // ---- search ----

  function PathLines(path: seq<Entry>): seq<Line> {
    seq(|path|, i requires 0 <= i < |path| => Shown(path[i], i))
  }

  /** What is printed for one selected entry, with or without tree display. */
  function Block(p: Pick, tree: bool): seq<Line> {
    var d := |p.path|;
    (if tree then PathLines(p.path) + ScanLines(p.entry, d, if p.depth != 0 then Add32(p.depth, d) else 0)
     else ScanLines(p.entry, 0, p.depth)) + [Blank]
  }

  function Blocks(ps: seq<Pick>, tree: bool): seq<Line> {
    if ps == [] then [] else Block(ps[0], tree) + Blocks(ps[1..], tree)
  }

  lemma {:induction false} BlocksConcat(ps: seq<Pick>, qs: seq<Pick>, tree: bool)
    ensures Blocks(ps + qs, tree) == Blocks(ps, tree) + Blocks(qs, tree)
  {
    if ps == [] {
      assert ps + qs == qs;
    } else {
      assert (ps + qs)[0] == ps[0] && (ps + qs)[1..] == ps[1..] + qs;
      BlocksConcat(ps[1..], qs, tree);
    }
  }

  /** The entries above are in the shared stack, and there is room below. */
  ghost predicate OnStack(stack: array<Entry>, path: seq<Entry>, service: Entry)
    reads stack
  {
    && |path| + Height(service) <= stack.Length < TWO32
    && stack[..|path|] == path
  }

  /** The lines for one selected entry, and what becomes of the options meanwhile. */
  method ShowMatch(service: Entry, stack: array<Entry>, o: Options, ghost path: seq<Entry>, serviceDepth: nat)
    returns (lines: seq<Line>, options: Options)
    requires OnStack(stack, path, service) && serviceDepth == |path|
    ensures lines == Block(Pick(service, path, o.depth), o.tree)
    ensures options == Restored(o, serviceDepth)
  {
    options := o;
    if options.tree {
      lines := [];
      for index := 0 to serviceDepth
        invariant lines == PathLines(path)[..index]
      {
        lines := lines + [Shown(stack[index], index)];
      }
      if options.depth != 0 { options := options.(depth := Add32(options.depth, serviceDepth)); }
      var more := Scan(service, serviceDepth, options.depth);
      if options.depth != 0 { options := options.(depth := Sub32(options.depth, serviceDepth)); }
      RaiseAndLower(o, serviceDepth);
      lines := lines + more;
    } else {
      lines := Scan(service, 0, options.depth);
    }
    lines := lines + [Blank];
  }

  lemma RaiseAndLower(o: Options, depth: nat)
    requires depth < TWO32
    ensures Sub32(Add32(o.depth, depth), depth) == o.depth
    ensures o.depth == 0 ==> Restored(o, depth) == o
  {
  }

  /** The lines after the first i children. */
  ghost predicate Searched(lines: seq<Line>, first: seq<Pick>, cs: seq<Entry>, i: nat, matched: nat, path: seq<Entry>,
      o: Options)
  {
    i <= |cs| && lines == Blocks(first + SelectAll(cs[..i], matched, path, o), o.tree)
  }

  lemma SearchedNone(first: seq<Pick>, cs: seq<Entry>, matched: nat, path: seq<Entry>, o: Options)
    ensures Searched(Blocks(first, o.tree), first, cs, 0, matched, path, o)
  {
    assert first + [] == first;
  }

  lemma SearchedNext(lines: seq<Line>, first: seq<Pick>, cs: seq<Entry>, i: nat, matched: nat, path: seq<Entry>,
      o: Options)
    requires Searched(lines, first, cs, i, matched, path, o) && i < |cs|
    ensures Searched(lines + Blocks(Select(cs[i], matched, path, o), o.tree), first, cs, i + 1, matched, path, o)
  {
    SelectAllAppend(cs[..i], cs[i], matched, path, o);
    assert cs[..i + 1] == cs[..i] + [cs[i]];
    var before, more := SelectAll(cs[..i], matched, path, o), Select(cs[i], matched, path, o);
    assert first + (before + more) == first + before + more;
    BlocksConcat(first + before, more, o.tree);
  }

  /** The picks of an entry: itself, perhaps, and those of its children. */
  lemma SelectSplit(e: Entry, matched: nat, path: seq<Entry>, o: Options, lines: seq<Line>)
    requires var now := Selects(e, matched, |path|, o);
             Searched(lines, if now then [Pick(e, path, o.depth)] else [], e.children, |e.children|,
                      if now then Suppress(o, |path|) else matched, path + [e], if now then Restored(o, |path|) else o)
    ensures lines == Blocks(Select(e, matched, path, o), o.tree)
  {
    assert e.children[..|e.children|] == e.children;
  }

  lemma OneBlock(p: Pick, tree: bool)
    ensures Blocks([p], tree) == Block(p, tree)
  {
    assert Blocks([p], tree) == Block(p, tree) + Blocks([], tree);
  }

  method Search(service: Entry, matched0: nat, serviceDepth: nat, stack: array<Entry>, o: Options,
      ghost path: seq<Entry>)
    returns (lines: seq<Line>)
    requires OnStack(stack, path, service) && serviceDepth == |path|
    modifies stack
    ensures lines == Blocks(Select(service, matched0, path, o), o.tree)
    ensures stack[..serviceDepth] == path
    decreases service
  {
    hide Blocks, Block, Select, SelectAll, Searched;
    var matched, options := matched0, o;
    lines := [];
    ghost var first: seq<Pick> := [];
    NoBlocks(o.tree);
    if matched < Add32(serviceDepth, 1) && o.matches(service) {
      matched := if o.depth != 0 then Add32(serviceDepth, o.depth) else UINT32_MAX;
      lines, options := ShowMatch(service, stack, options, path, serviceDepth);
      first := [Pick(service, path, o.depth)];
      OneBlock(first[0], o.tree);
    }
    stack[serviceDepth] := service;
    var children := service.children;
    ghost var below := path + [service];
    SearchedNone(first, children, matched, below, options);
    for i := 0 to |children|
      invariant stack[..serviceDepth + 1] == below
      invariant Searched(lines, first, children, i, matched, below, options)
    {
      HeightOfChild(children, i);
      SearchedNext(lines, first, children, i, matched, below, options);
      var more := Search(children[i], matched, Add32(serviceDepth, 1), stack, options, below);
      lines := lines + more;
    }
    SelectSplit(service, matched0, path, o, lines);
    assert stack[..serviceDepth] == stack[..serviceDepth + 1][..serviceDepth];
  }

  lemma NoBlocks(tree: bool)
    ensures Blocks([], tree) == []
  {
  }

  // ---- archive_scan and archive_search ----

  /** The dictionary of an entry; the key for its children is absent, an array, or (on a path) one dictionary. */
  datatype Plist = Dict(entry: Entry, kids: Kids)
  datatype Kids = Absent | Array(items: seq<Plist>) | Single(item: Plist)

  function ArchiveTree(e: Entry, depth: nat, limit: nat): Plist
    decreases e, 1
  {
    if Deeper(limit, depth) && e.children != [] then Dict(e, Array(ArchiveAll(e.children, depth + 1, limit)))
    else Dict(e, Absent)
  }

  function ArchiveAll(cs: seq<Entry>, depth: nat, limit: nat): (ps: seq<Plist>)
    ensures |ps| == |cs|
    decreases cs, 0
  {
    if cs == [] then [] else [ArchiveTree(cs[0], depth, limit)] + ArchiveAll(cs[1..], depth, limit)
  }

  lemma {:induction false} ArchiveAllAppend(cs: seq<Entry>, c: Entry, depth: nat, limit: nat)
    ensures ArchiveAll(cs + [c], depth, limit) == ArchiveAll(cs, depth, limit) + [ArchiveTree(c, depth, limit)]
  {
    if cs == [] {
      assert [] + [c] == [c] && [c][1..] == [];
    } else {
      assert (cs + [c])[0] == cs[0] && (cs + [c])[1..] == cs[1..] + [c];
      ArchiveAllAppend(cs[1..], c, depth, limit);
    }
  }

  method ArchiveScan(service: Entry, serviceDepth: nat, depth: nat) returns (dictionary: Plist)
    requires serviceDepth + Height(service) < TWO32
    ensures dictionary == ArchiveTree(service, serviceDepth, depth)
    decreases service
  {
    dictionary := Dict(service, Absent);
    var children := service.children;
    if depth == 0 || depth > Add32(serviceDepth, 1) {
      if children != [] {
        var items := [];
        for i := 0 to |children|
          invariant items == ArchiveAll(children[..i], serviceDepth + 1, depth)
        {
          HeightOfChild(children, i);
          var item := ArchiveScan(children[i], Add32(serviceDepth, 1), depth);
          ArchiveAllAppend(children[..i], children[i], serviceDepth + 1, depth);
          assert children[..i + 1] == children[..i] + [children[i]];
          items := items + [item];
        }
        assert children[..|children|] == children;
        dictionary := Dict(service, Array(items));
      }
    }
  }

  /** A dictionary inside those of the entries above it. */
  function WrapPath(path: seq<Entry>, x: Plist): Plist {
    if path == [] then x else WrapPath(path[..|path| - 1], Dict(path[|path| - 1], Single(x)))
  }

  function Wrap(p: Pick, tree: bool): Plist {
    var d := |p.path|;
    if tree then WrapPath(p.path, ArchiveTree(p.entry, d, if p.depth != 0 then Add32(p.depth, d) else 0))
    else ArchiveTree(p.entry, 0, p.depth)
  }

  function Wraps(ps: seq<Pick>, tree: bool): seq<Plist> {
    seq(|ps|, i requires 0 <= i < |ps| => Wrap(ps[i], tree))
  }

  function Found(ps: seq<Pick>, tree: bool): Option<seq<Plist>> {
    if ps == [] then None else Some(Wraps(ps, tree))
  }

  method ArchiveMatch(service: Entry, stack: array<Entry>, o: Options, ghost path: seq<Entry>, serviceDepth: nat)
    returns (dictionary: Plist, options: Options)
    requires OnStack(stack, path, service) && serviceDepth == |path|
    ensures dictionary == Wrap(Pick(service, path, o.depth), o.tree)
    ensures options == Restored(o, serviceDepth)
  {
    options := o;
    if options.tree {
      if options.depth != 0 { options := options.(depth := Add32(options.depth, serviceDepth)); }
      dictionary := ArchiveScan(service, serviceDepth, options.depth);
      if options.depth != 0 { options := options.(depth := Sub32(options.depth, serviceDepth)); }
      RaiseAndLower(o, serviceDepth);
      var index := serviceDepth;
      assert path[..index] == path;
      while index > 0
        invariant 0 <= index <= |path|
        invariant WrapPath(path[..index], dictionary) == Wrap(Pick(service, path, o.depth), o.tree)
      {
        assert path[..index][..index - 1] == path[..index - 1];
        dictionary := Dict(stack[index - 1], Single(dictionary));
        index := index - 1;
      }
    } else {
      dictionary := ArchiveScan(service, 0, options.depth);
    }
  }

  /** The array, or none, after the first i children. */
  ghost predicate Archived(found: Option<seq<Plist>>, first: seq<Pick>, cs: seq<Entry>, i: nat, matched: nat,
      path: seq<Entry>, o: Options)
  {
    i <= |cs| && found == Found(first + SelectAll(cs[..i], matched, path, o), o.tree)
  }

  lemma ArchivedNone(first: seq<Pick>, cs: seq<Entry>, matched: nat, path: seq<Entry>, o: Options)
    ensures Archived(Found(first, o.tree), first, cs, 0, matched, path, o)
  {
    assert first + [] == first;
  }

  /** Appending to an array that may be missing. */
  function AppendArray(a: Option<seq<Plist>>, b: Option<seq<Plist>>): Option<seq<Plist>> {
    if b.None? then a else if a.Some? then Some(a.value + b.value) else b
  }

  lemma FoundConcat(ps: seq<Pick>, qs: seq<Pick>, tree: bool)
    ensures Found(ps + qs, tree) == AppendArray(Found(ps, tree), Found(qs, tree))
  {
    assert Wraps(ps + qs, tree) == Wraps(ps, tree) + Wraps(qs, tree);
    if qs == [] { assert ps + qs == ps; }
    if ps == [] { assert ps + qs == qs; }
  }

  lemma ArchivedNext(a: Option<seq<Plist>>, first: seq<Pick>, cs: seq<Entry>, i: nat, matched: nat, path: seq<Entry>,
      o: Options)
    requires Archived(a, first, cs, i, matched, path, o) && i < |cs|
    ensures Archived(AppendArray(a, Found(Select(cs[i], matched, path, o), o.tree)), first, cs, i + 1, matched, path, o)
  {
    SelectAllAppend(cs[..i], cs[i], matched, path, o);
    assert cs[..i + 1] == cs[..i] + [cs[i]];
    var before, more := SelectAll(cs[..i], matched, path, o), Select(cs[i], matched, path, o);
    assert first + (before + more) == first + before + more;
    hide Found, Select, SelectAll;
    FoundConcat(first + before, more, o.tree);
  }

  lemma ArchiveSplit(e: Entry, matched: nat, path: seq<Entry>, o: Options, a: Option<seq<Plist>>)
    requires var now := Selects(e, matched, |path|, o);
             Archived(a, if now then [Pick(e, path, o.depth)] else [], e.children, |e.children|,
                      if now then Suppress(o, |path|) else matched, path + [e], if now then Restored(o, |path|) else o)
    ensures a == Found(Select(e, matched, path, o), o.tree)
  {
    assert e.children[..|e.children|] == e.children;
  }

  method ArchiveSearch(service: Entry, matched0: nat, serviceDepth: nat, stack: array<Entry>, o: Options,
      ghost path: seq<Entry>)
    returns (found: Option<seq<Plist>>)
    requires OnStack(stack, path, service) && serviceDepth == |path|
    modifies stack
    ensures found == Found(Select(service, matched0, path, o), o.tree)
    ensures stack[..serviceDepth] == path
    decreases service
  {
    hide Found, Wraps, Wrap, Select, SelectAll, Archived;
    var matched, options := matched0, o;
    found := None;
    ghost var first: seq<Pick> := [];
    NoneFound(Pick(service, path, o.depth), o.tree);
    if matched < Add32(serviceDepth, 1) && o.matches(service) {
      matched := if o.depth != 0 then Add32(serviceDepth, o.depth) else UINT32_MAX;
      var dictionary;
      dictionary, options := ArchiveMatch(service, stack, options, path, serviceDepth);
      found := Some([dictionary]);
      first := [Pick(service, path, o.depth)];
    }
    stack[serviceDepth] := service;
    var children := service.children;
    ghost var below := path + [service];
    ArchivedNone(first, children, matched, below, options);
    for i := 0 to |children|
      invariant stack[..serviceDepth + 1] == below
      invariant Archived(found, first, children, i, matched, below, options)
    {
      HeightOfChild(children, i);
      ArchivedNext(found, first, children, i, matched, below, options);
      var more := ArchiveSearch(children[i], matched, Add32(serviceDepth, 1), stack, options, below);
      if more.Some? {
        if found.Some? {
          found := Some(found.value + more.value);
        } else {
          found := more;
        }
      }
    }
    ArchiveSplit(service, matched0, path, o, found);
    assert stack[..serviceDepth] == stack[..serviceDepth + 1][..serviceDepth];
  }

  lemma NoneFound(p: Pick, tree: bool)
    ensures Found([], tree) == None && Found([p], tree) == Some([Wrap(p, tree)])
  {
    assert Wraps([p], tree) == [Wrap(p, tree)];
  }
}
