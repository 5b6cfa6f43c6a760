/** What the root mode of ioreg prints without tree display: every match once and nothing twice. */
module IoregCoverage {
  import opened Common
  import opened IoregSearch
  import opened IoregPicks

  /** All entries of a tree, with their multiplicity. */
  function Bag(e: Entry): multiset<Entry>
    decreases e, 1
  {
    multiset{e} + BagAll(e.children)
  }

  function BagAll(cs: seq<Entry>): multiset<Entry>
    decreases cs, 0
  {
    if cs == [] then multiset{} else Bag(cs[0]) + BagAll(cs[1..])
  }

  /** The entries of the first n levels. */
  function Top(e: Entry, n: nat): multiset<Entry>
    decreases e, 1
  {
    if n == 0 then multiset{} else multiset{e} + TopAll(e.children, n - 1)
  }

  function TopAll(cs: seq<Entry>, n: nat): multiset<Entry>
    decreases cs, 0
  {
    if cs == [] then multiset{} else Top(cs[0], n) + TopAll(cs[1..], n)
  }

  /** The entries that lines show. */
  function Printed(lines: seq<Line>): multiset<Entry> {
    if lines == [] then multiset{}
    else (if lines[0].Shown? then multiset{lines[0].entry} else multiset{}) + Printed(lines[1..])
  }

  lemma {:induction false} PrintedConcat(a: seq<Line>, b: seq<Line>)
    ensures Printed(a + b) == Printed(a) + Printed(b)
  {
    if a == [] {
      assert a + b == b;
    } else {
      assert (a + b)[1..] == a[1..] + b;
      PrintedConcat(a[1..], b);
    }
  }

  lemma PrintedFirst(e: Entry, depth: nat, below: seq<Line>)
    ensures Printed([Shown(e, depth)] + below) == multiset{e} + Printed(below)
    ensures Printed([]) == multiset{}
  {
    assert ([Shown(e, depth)] + below)[1..] == below;
  }

  /** With as many levels as the tree has, the top is all of it. */
  lemma {:induction false} TopOfHeight(e: Entry, n: nat)
    requires n >= Height(e)
    ensures Top(e, n) == Bag(e)
    decreases e, 1
  {
    TopAllOfHeight(e.children, n - 1);
  }

  lemma {:induction false} TopAllOfHeight(cs: seq<Entry>, n: nat)
    requires n >= HeightAll(cs)
    ensures TopAll(cs, n) == BagAll(cs)
    decreases cs, 0
  {
    if cs != [] {
      TopOfHeight(cs[0], n);
      TopAllOfHeight(cs[1..], n);
    }
  }

  /** A depth limit counts levels; no limit means more levels than there are. */
  function Levels(limit: nat, depth: nat, all: nat): nat {
    if limit == 0 then all else if limit > depth then limit - depth else 0
  }

  /** scan shows the first levels of its tree, its root in any case. */
  lemma {:induction false} ScanPrints(e: Entry, depth: nat, limit: nat, all: nat)
    requires all >= Height(e) && (limit == 0 || limit > depth)
    ensures Printed(ScanLines(e, depth, limit)) == Top(e, Levels(limit, depth, all))
    decreases e, 1
  {
    var below := if Deeper(limit, depth) then ScanAll(e.children, depth + 1, limit) else [];
    PrintedFirst(e, depth, below);
    hide Printed;
    if Deeper(limit, depth) {
      ScanAllPrints(e.children, depth + 1, limit, all - 1);
    } else {
      NoTop(e.children);
    }
  }

  lemma {:induction false} ScanAllPrints(cs: seq<Entry>, depth: nat, limit: nat, all: nat)
    requires all >= HeightAll(cs) && (limit == 0 || limit > depth)
    ensures Printed(ScanAll(cs, depth, limit)) == TopAll(cs, Levels(limit, depth, all))
    decreases cs, 0
  {
    if cs != [] {
      ScanPrints(cs[0], depth, limit, all);
      ScanAllPrints(cs[1..], depth, limit, all);
      PrintedConcat(ScanLines(cs[0], depth, limit), ScanAll(cs[1..], depth, limit));
    }
  }

  lemma NoTop(cs: seq<Entry>)
    ensures TopAll(cs, 0) == multiset{}
  {
  }

  // ---- every match at least once ----

  /** What the suppression leaves to an entry's own matching: levels below `matched` have been shown already. */
  function Shadow(matched: nat, depth: nat): nat {
    if matched > depth then matched - depth else 0
  }

  /** How many levels below a match at this depth are shown with it. */
  function Beneath(o: Options, depth: nat): nat
    requires depth < UINT32_MAX
  {
    Levels(o.depth, 0, UINT32_MAX - depth) - 1
  }

  /** A match suppresses what it shows, or nothing at all when the addition wraps. */
  lemma ShadowOfMatch(o: Options, depth: nat)
    requires depth < UINT32_MAX
    ensures Shadow(Suppress(o, depth), depth + 1) == if depth + o.depth < TWO32 then Beneath(o, depth) else 0
  {
  }

  /** `shown` plus what was shown before has every match. */
  ghost predicate AtLeast(shown: multiset<Entry>, before: multiset<Entry>, all: multiset<Entry>, o: Options) {
    forall x :: o.matches(x) ==> (shown + before)[x] >= all[x]
  }

  /** `shown` plus what was shown before has nothing too often. */
  ghost predicate AtMost(shown: multiset<Entry>, before: multiset<Entry>, all: multiset<Entry>) {
    forall x :: (shown + before)[x] <= all[x]
  }

  function PrintedFor(ps: seq<Pick>): multiset<Entry> {
    Printed(Blocks(ps, false))
  }

  lemma PrintedForConcat(ps: seq<Pick>, qs: seq<Pick>)
    ensures PrintedFor(ps + qs) == PrintedFor(ps) + PrintedFor(qs)
  {
    BlocksConcat(ps, qs, false);
    PrintedConcat(Blocks(ps, false), Blocks(qs, false));
  }

  /** One block, outside tree mode, shows the first levels of the selected entry's tree. */
  lemma BlockPrints(p: Pick, all: nat)
    requires all >= Height(p.entry)
    ensures PrintedFor([p]) == Top(p.entry, Levels(p.depth, 0, all))
  {
    var lines := ScanLines(p.entry, 0, p.depth);
    OneBlock(p, false);
    PrintedConcat(lines, [Blank]);
    assert Printed([Blank]) == multiset{} + Printed([]);
    ScanPrints(p.entry, 0, p.depth, all);
  }

  lemma TopAndBag(e: Entry, n: nat)
    ensures Bag(e) == multiset{e} + BagAll(e.children)
    ensures Top(e, n) == if n == 0 then multiset{} else multiset{e} + TopAll(e.children, n - 1)
    ensures TopAll(e.children, 0) == multiset{}
  {
    NoTop(e.children);
  }

  /** A selected entry is printed with the levels beneath it, and then what is selected below. */
  lemma SelectedPrints(e: Entry, matched: nat, path: seq<Entry>, o: Options)
    requires !o.tree && |path| + Height(e) < TWO32 && Selects(e, matched, |path|, o)
    ensures PrintedFor(Select(e, matched, path, o)) ==
            multiset{e} + TopAll(e.children, Beneath(o, |path|))
            + PrintedFor(SelectAll(e.children, Suppress(o, |path|), path + [e], o))
    ensures Top(e, Shadow(matched, |path|)) == multiset{}
  {
    var p, more := Pick(e, path, o.depth), SelectAll(e.children, Suppress(o, |path|), path + [e], o);
    assert Select(e, matched, path, o) == [p] + more;
    hide Select, SelectAll, PrintedFor;
    BlockPrints(p, UINT32_MAX - |path|);
    PrintedForConcat([p], more);
  }

  /** An entry that is not selected has been shown, or does not match. */
  lemma PassedOver(e: Entry, matched: nat, path: seq<Entry>, o: Options)
    requires !Selects(e, matched, |path|, o)
    ensures Select(e, matched, path, o) == SelectAll(e.children, matched, path + [e], o)
    ensures var k := Shadow(matched, |path|);
            if k > 0 then Top(e, k) == multiset{e} + TopAll(e.children, Shadow(matched, |path| + 1))
            else !o.matches(e) && Top(e, k) == TopAll(e.children, Shadow(matched, |path| + 1)) == multiset{}
  {
    if matched <= |path| { NoTop(e.children); }
    assert [] + SelectAll(e.children, matched, path + [e], o) == SelectAll(e.children, matched, path + [e], o);
  }

  lemma AtLeastRoot(e: Entry, shown: multiset<Entry>, before: multiset<Entry>, more: multiset<Entry>,
      all: multiset<Entry>, o: Options)
    requires AtLeast(shown, before, all, o)
    ensures AtLeast(shown, multiset{e} + before, multiset{e} + all, o)
    ensures before == more || before == multiset{} ==>
              AtLeast(multiset{e} + more + shown, multiset{}, multiset{e} + all, o)
    ensures before == multiset{} && !o.matches(e) ==> AtLeast(shown, multiset{}, multiset{e} + all, o)
  {
  }

  lemma SelectedAtLeast(e: Entry, matched: nat, path: seq<Entry>, o: Options)
    requires !o.tree && |path| + Height(e) < TWO32 && Selects(e, matched, |path|, o)
    requires var m := Suppress(o, |path|);
             AtLeast(PrintedFor(SelectAll(e.children, m, path + [e], o)), TopAll(e.children, Shadow(m, |path| + 1)),
                     BagAll(e.children), o)
    ensures AtLeast(PrintedFor(Select(e, matched, path, o)), Top(e, Shadow(matched, |path|)), Bag(e), o)
  {
    assert Height(e) >= 1;
    hide AtLeast, PrintedFor, Select, SelectAll, Top, TopAll, Bag, BagAll, Height, HeightAll, Shadow;
    var m := Suppress(o, |path|);
    var before, more := TopAll(e.children, Shadow(m, |path| + 1)), TopAll(e.children, Beneath(o, |path|));
    ShadowOfMatch(o, |path|);
    SelectedPrints(e, matched, path, o);
    TopAndBag(e, 0);
    AtLeastRoot(e, PrintedFor(SelectAll(e.children, m, path + [e], o)), before, more, BagAll(e.children), o);
  }

  lemma PassedOverAtLeast(e: Entry, matched: nat, path: seq<Entry>, o: Options)
    requires !Selects(e, matched, |path|, o)
    requires AtLeast(PrintedFor(SelectAll(e.children, matched, path + [e], o)),
                     TopAll(e.children, Shadow(matched, |path| + 1)), BagAll(e.children), o)
    ensures AtLeast(PrintedFor(Select(e, matched, path, o)), Top(e, Shadow(matched, |path|)), Bag(e), o)
  {
    hide AtLeast, PrintedFor, Select, SelectAll, Top, TopAll, Bag, BagAll;
    PassedOver(e, matched, path, o);
    TopAndBag(e, 0);
    AtLeastRoot(e, PrintedFor(SelectAll(e.children, matched, path + [e], o)),
                TopAll(e.children, Shadow(matched, |path| + 1)), multiset{}, BagAll(e.children), o);
  }

  /** Whatever the depth option, what is selected below an entry and what was shown before contain every match. */
  lemma {:induction false} SelectAtLeast(e: Entry, matched: nat, path: seq<Entry>, o: Options)
    requires !o.tree && |path| + Height(e) < TWO32
    ensures AtLeast(PrintedFor(Select(e, matched, path, o)), Top(e, Shadow(matched, |path|)), Bag(e), o)
    decreases e, 1
  {
    var now := Selects(e, matched, |path|, o);
    hide AtLeast, PrintedFor, Select, SelectAll, Top, TopAll, Bag, BagAll;
    SelectAllAtLeast(e.children, if now then Suppress(o, |path|) else matched, path + [e], o);
    if now { SelectedAtLeast(e, matched, path, o); } else { PassedOverAtLeast(e, matched, path, o); }
  }

  lemma {:induction false} SelectAllAtLeast(cs: seq<Entry>, matched: nat, path: seq<Entry>, o: Options)
    requires !o.tree && |path| + HeightAll(cs) < TWO32
    ensures AtLeast(PrintedFor(SelectAll(cs, matched, path, o)), TopAll(cs, Shadow(matched, |path|)), BagAll(cs), o)
    decreases cs, 0
  {
    if cs != [] {
      SelectAtLeast(cs[0], matched, path, o);
      SelectAllAtLeast(cs[1..], matched, path, o);
      PrintedForConcat(Select(cs[0], matched, path, o), SelectAll(cs[1..], matched, path, o));
    }
  }

  // ---- nothing twice ----

  /** Some entry in these trees matches. */
  ghost predicate MatchAmong(cs: seq<Entry>, o: Options) {
    exists x :: x in BagAll(cs) && o.matches(x)
  }

  /** The addition wraps at this selected entry, and something below it matches. */
  ghost predicate Repeats(p: Pick, o: Options) {
    |p.path| + o.depth >= TWO32 && MatchAmong(p.entry.children, o)
  }

  lemma {:induction false} NoneSelected(e: Entry, matched: nat, path: seq<Entry>, o: Options)
    requires forall x :: x in Bag(e) ==> !o.matches(x)
    ensures Select(e, matched, path, o) == []
    decreases e, 1
  {
    assert e in Bag(e) && forall x :: x in BagAll(e.children) ==> x in Bag(e);
    NoneSelectedAmong(e.children, matched, path + [e], o);
  }

  lemma {:induction false} NoneSelectedAmong(cs: seq<Entry>, matched: nat, path: seq<Entry>, o: Options)
    requires forall x :: x in BagAll(cs) ==> !o.matches(x)
    ensures SelectAll(cs, matched, path, o) == []
    decreases cs, 0
  {
    if cs != [] {
      assert forall x :: x in Bag(cs[0]) || x in BagAll(cs[1..]) ==> x in BagAll(cs);
      NoneSelected(cs[0], matched, path, o);
      NoneSelectedAmong(cs[1..], matched, path, o);
    }
  }

  lemma {:induction false} TopInBag(e: Entry, n: nat)
    ensures Top(e, n) <= Bag(e)
    decreases e, 1
  {
    if n > 0 { TopAllInBag(e.children, n - 1); }
  }

  lemma {:induction false} TopAllInBag(cs: seq<Entry>, n: nat)
    ensures TopAll(cs, n) <= BagAll(cs)
    decreases cs, 0
  {
    if cs != [] {
      TopInBag(cs[0], n);
      TopAllInBag(cs[1..], n);
    }
  }

  lemma AtMostRoot(e: Entry, shown: multiset<Entry>, before: multiset<Entry>, all: multiset<Entry>)
    requires AtMost(shown, before, all)
    ensures AtMost(shown, multiset{e} + before, multiset{e} + all)
    ensures AtMost(multiset{e} + before + shown, multiset{}, multiset{e} + all)
    ensures before == multiset{} ==> AtMost(shown, multiset{}, multiset{e} + all)
  {
  }

  lemma SelectedAtMost(e: Entry, matched: nat, path: seq<Entry>, o: Options)
    requires !o.tree && |path| + Height(e) < TWO32 && Selects(e, matched, |path|, o)
    requires AtMost(PrintedFor(SelectAll(e.children, Suppress(o, |path|), path + [e], o)),
                    TopAll(e.children, Beneath(o, |path|)), BagAll(e.children))
    ensures AtMost(PrintedFor(Select(e, matched, path, o)), Top(e, Shadow(matched, |path|)), Bag(e))
  {
    assert Height(e) >= 1;
    hide AtMost, PrintedFor, Select, SelectAll, Top, TopAll, Bag, BagAll, Height, HeightAll, Shadow;
    SelectedPrints(e, matched, path, o);
    TopAndBag(e, 0);
    AtMostRoot(e, PrintedFor(SelectAll(e.children, Suppress(o, |path|), path + [e], o)),
               TopAll(e.children, Beneath(o, |path|)), BagAll(e.children));
  }

  /** Where the addition wraps and nothing below matches, nothing more is printed. */
  lemma WrapIsHarmless(e: Entry, matched: nat, path: seq<Entry>, o: Options)
    requires !MatchAmong(e.children, o) && |path| < UINT32_MAX
    ensures AtMost(PrintedFor(SelectAll(e.children, matched, path + [e], o)), TopAll(e.children, Beneath(o, |path|)),
                   BagAll(e.children))
  {
    NoneSelectedAmong(e.children, matched, path + [e], o);
    TopAllInBag(e.children, Beneath(o, |path|));
    assert PrintedFor([]) == multiset{};
  }

  lemma PassedOverAtMost(e: Entry, matched: nat, path: seq<Entry>, o: Options)
    requires !Selects(e, matched, |path|, o)
    requires AtMost(PrintedFor(SelectAll(e.children, matched, path + [e], o)),
                    TopAll(e.children, Shadow(matched, |path| + 1)), BagAll(e.children))
    ensures AtMost(PrintedFor(Select(e, matched, path, o)), Top(e, Shadow(matched, |path|)), Bag(e))
  {
    hide AtMost, PrintedFor, Select, SelectAll, Top, TopAll, Bag, BagAll;
    PassedOver(e, matched, path, o);
    TopAndBag(e, 0);
    AtMostRoot(e, PrintedFor(SelectAll(e.children, matched, path + [e], o)),
               TopAll(e.children, Shadow(matched, |path| + 1)), BagAll(e.children));
  }

  lemma {:induction false} SelectAtMost(e: Entry, matched: nat, path: seq<Entry>, o: Options)
    requires !o.tree && |path| + Height(e) < TWO32
    requires forall p :: p in Select(e, matched, path, o) ==> !Repeats(p, o)
    ensures AtMost(PrintedFor(Select(e, matched, path, o)), Top(e, Shadow(matched, |path|)), Bag(e))
    decreases e, 1
  {
    var now := Selects(e, matched, |path|, o);
    var m := if now then Suppress(o, |path|) else matched;
    assert Height(e) >= 1 && HeightAll(e.children) < Height(e);
    assert forall p :: p in SelectAll(e.children, m, path + [e], o) ==> p in Select(e, matched, path, o);
    assert now ==> Pick(e, path, o.depth) in Select(e, matched, path, o);
    hide AtMost, PrintedFor, Select, SelectAll, Top, TopAll, Bag, BagAll, Shadow, Suppress, MatchAmong;
    hide Height, HeightAll;
    if now && |path| + o.depth >= TWO32 {
      assert !Repeats(Pick(e, path, o.depth), o);
      WrapIsHarmless(e, m, path, o);
      SelectedAtMost(e, matched, path, o);
    } else {
      SelectAllAtMost(e.children, m, path + [e], o);
      if now {
        ShadowOfMatch(o, |path|);
        SelectedAtMost(e, matched, path, o);
      } else {
        PassedOverAtMost(e, matched, path, o);
      }
    }
  }

  lemma {:induction false} SelectAllAtMost(cs: seq<Entry>, matched: nat, path: seq<Entry>, o: Options)
    requires !o.tree && |path| + HeightAll(cs) < TWO32
    requires forall p :: p in SelectAll(cs, matched, path, o) ==> !Repeats(p, o)
    ensures AtMost(PrintedFor(SelectAll(cs, matched, path, o)), TopAll(cs, Shadow(matched, |path|)), BagAll(cs))
    decreases cs, 0
  {
    if cs == [] {
      assert PrintedFor([]) == multiset{};
    } else {
      SelectAtMost(cs[0], matched, path, o);
      SelectAllAtMost(cs[1..], matched, path, o);
      PrintedForConcat(Select(cs[0], matched, path, o), SelectAll(cs[1..], matched, path, o));
    }
  }

  // ---- something twice ----

  /** x is printed more often than it occurs, what was shown before included. */
  ghost predicate TooOften(shown: multiset<Entry>, before: multiset<Entry>, all: multiset<Entry>, x: Entry) {
    (shown + before)[x] > all[x]
  }

  lemma TooOftenRoot(e: Entry, shown: multiset<Entry>, before: multiset<Entry>, more: multiset<Entry>,
      all: multiset<Entry>, x: Entry)
    requires TooOften(shown, before, all, x)
    ensures TooOften(shown, multiset{e} + before, multiset{e} + all, x)
    ensures before == more || before == multiset{} ==>
              TooOften(multiset{e} + more + shown, multiset{}, multiset{e} + all, x)
    ensures before == multiset{} && x != e ==> TooOften(shown, multiset{}, multiset{e} + all, x)
  {
  }

  /** A selected entry where the addition wraps shows all of its tree, and all matches below are shown again. */
  lemma RepeatsHere(e: Entry, matched: nat, path: seq<Entry>, o: Options, x: Entry)
    requires !o.tree && |path| + Height(e) < TWO32 && Selects(e, matched, |path|, o) && |path| + o.depth >= TWO32
    requires x in BagAll(e.children) && o.matches(x)
    ensures TooOften(PrintedFor(Select(e, matched, path, o)), Top(e, Shadow(matched, |path|)), Bag(e), x)
  {
    var m := Suppress(o, |path|);
    assert Height(e) == 1 + HeightAll(e.children) && Beneath(o, |path|) >= HeightAll(e.children);
    ShadowOfMatch(o, |path|);
    hide AtLeast, PrintedFor, Select, SelectAll, Top, TopAll, Bag, BagAll, Shadow, Height, HeightAll, Suppress, Beneath;
    TopAllOfHeight(e.children, Beneath(o, |path|));
    SelectAllAtLeast(e.children, m, path + [e], o);
    SelectedPrints(e, matched, path, o);
    TopAndBag(e, 0);
    AtLeastAt(PrintedFor(SelectAll(e.children, m, path + [e], o)), multiset{}, BagAll(e.children), o, x);
  }

  lemma AtLeastAt(shown: multiset<Entry>, before: multiset<Entry>, all: multiset<Entry>, o: Options, x: Entry)
    requires AtLeast(shown, before, all, o) && o.matches(x)
    ensures (shown + before)[x] >= all[x]
  {
  }

  /** Above such an entry the count stays too high. */
  lemma RepeatsAbove(e: Entry, matched: nat, path: seq<Entry>, o: Options, x: Entry)
    requires !o.tree && |path| + Height(e) < TWO32 && o.matches(x)
    requires var m := Below(e, matched, path, o).0;
             TooOften(PrintedFor(SelectAll(e.children, m, path + [e], o)), TopAll(e.children, Shadow(m, |path| + 1)),
                      BagAll(e.children), x)
    ensures TooOften(PrintedFor(Select(e, matched, path, o)), Top(e, Shadow(matched, |path|)), Bag(e), x)
  {
    var now := Selects(e, matched, |path|, o);
    var m := Below(e, matched, path, o).0;
    assert Height(e) >= 1 && m == if now then Suppress(o, |path|) else matched;
    hide TooOften, PrintedFor, Select, SelectAll, Top, TopAll, Bag, BagAll, Shadow, Suppress, Beneath;
    hide Height, HeightAll;
    var shown, before := PrintedFor(SelectAll(e.children, m, path + [e], o)), TopAll(e.children, Shadow(m, |path| + 1));
    TopAndBag(e, 0);
    if now {
      ShadowOfMatch(o, |path|);
      SelectedPrints(e, matched, path, o);
      TooOftenRoot(e, shown, before, TopAll(e.children, Beneath(o, |path|)), BagAll(e.children), x);
    } else {
      PassedOver(e, matched, path, o);
      TooOftenRoot(e, shown, before, multiset{}, BagAll(e.children), x);
    }
  }

  lemma {:induction false} RepeatsBelow(e: Entry, matched: nat, path: seq<Entry>, o: Options, p: Pick, x: Entry)
    requires !o.tree && |path| + Height(e) < TWO32 && p in Select(e, matched, path, o)
    requires |p.path| + o.depth >= TWO32 && x in BagAll(p.entry.children) && o.matches(x)
    ensures TooOften(PrintedFor(Select(e, matched, path, o)), Top(e, Shadow(matched, |path|)), Bag(e), x)
    decreases e, 1
  {
    assert HeightAll(e.children) < Height(e);
    var c := SelectCases(e, matched, path, o, p);
    if p == Pick(e, path, o.depth) && Selects(e, matched, |path|, o) {
      RepeatsHere(e, matched, path, o, x);
    } else {
      var m := Below(e, matched, path, o).0;
      InSelectAllOf(e, matched, path, o, c, p);
      RepeatsAmong(e.children, m, path + [e], o, p, x);
      RepeatsAbove(e, matched, path, o, x);
    }
  }

  lemma InSelectAllOf(e: Entry, matched: nat, path: seq<Entry>, o: Options, c: Entry, p: Pick)
    requires !o.tree && c in e.children && p in Select(c, Below(e, matched, path, o).0, path + [e], o)
    ensures p in SelectAll(e.children, Below(e, matched, path, o).0, path + [e], o)
  {
    var i :| 0 <= i < |e.children| && e.children[i] == c;
    InSelectAll(e.children, i, Below(e, matched, path, o).0, path + [e], o, p);
  }

  lemma {:induction false} RepeatsAmong(cs: seq<Entry>, matched: nat, path: seq<Entry>, o: Options, p: Pick, x: Entry)
    requires !o.tree && |path| + HeightAll(cs) < TWO32 && p in SelectAll(cs, matched, path, o)
    requires |p.path| + o.depth >= TWO32 && x in BagAll(p.entry.children) && o.matches(x)
    ensures TooOften(PrintedFor(SelectAll(cs, matched, path, o)), TopAll(cs, Shadow(matched, |path|)), BagAll(cs), x)
    decreases cs, 0
  {
    PrintedForConcat(Select(cs[0], matched, path, o), SelectAll(cs[1..], matched, path, o));
    if p in Select(cs[0], matched, path, o) {
      RepeatsBelow(cs[0], matched, path, o, p, x);
      SelectAllAtLeast(cs[1..], matched, path, o);
    } else {
      SelectAtLeast(cs[0], matched, path, o);
      RepeatsAmong(cs[1..], matched, path, o, p, x);
    }
  }

  // ---- the main result ----

  /** No entry is printed more often than it occurs, and every match exactly as often. */
  ghost predicate Covers(root: Entry, o: Options) {
    var shown := Printed(Blocks(Select(root, 0, [], o), false));
    forall x :: shown[x] <= Bag(root)[x] && (o.matches(x) ==> shown[x] == Bag(root)[x])
  }

  /** Root mode without tree display shows every match, whatever the depth option. */
  lemma EveryMatchShown(root: Entry, o: Options, x: Entry)
    requires !o.tree && Height(root) < TWO32 && o.matches(x)
    ensures Printed(Blocks(Select(root, 0, [], o), false))[x] >= Bag(root)[x]
  {
    SelectAtLeast(root, 0, [], o);
    NoTop([root]);
    assert (PrintedFor(Select(root, 0, [], o)) + multiset{})[x] >= Bag(root)[x];
  }

  /**
   * For one match predicate: each match is shown exactly once, and nothing twice, exactly if no entry is selected
   * so deep that the addition wraps and has a match below it.
   */
  lemma CoversExactly(root: Entry, o: Options)
    requires !o.tree && Height(root) < TWO32
    ensures Covers(root, o) <==> forall p :: p in Select(root, 0, [], o) ==> !Repeats(p, o)
  {
    NoTop([root]);
    if forall p :: p in Select(root, 0, [], o) ==> !Repeats(p, o) {
      SelectAtMost(root, 0, [], o);
      forall x
        ensures var shown := Printed(Blocks(Select(root, 0, [], o), false));
                shown[x] <= Bag(root)[x] && (o.matches(x) ==> shown[x] == Bag(root)[x])
      {
        assert (PrintedFor(Select(root, 0, [], o)) + multiset{})[x] <= Bag(root)[x];
        if o.matches(x) { EveryMatchShown(root, o, x); }
      }
    } else {
      var p :| p in Select(root, 0, [], o) && Repeats(p, o);
      var x :| x in BagAll(p.entry.children) && o.matches(x);
      RepeatsBelow(root, 0, [], o, p, x);
      assert (PrintedFor(Select(root, 0, [], o)) + multiset{})[x] > Bag(root)[x];
    }
  }

  /** Within the bound no selected entry has anything below it where the addition wraps. */
  lemma EveryMatchOnce(root: Entry, o: Options)
    requires !o.tree && Height(root) < TWO32 && Height(root) + o.depth <= TWO32 + 1
    ensures Covers(root, o)
  {
    forall p | p in Select(root, 0, [], o) ensures !Repeats(p, o) {
      SelectedBeyond(root, 0, [], o, p);
      if p.entry.children != [] { assert HeightAll(p.entry.children) >= Height(p.entry.children[0]) >= 1; }
    }
    CoversExactly(root, o);
  }

  /** Beyond it, two entries in a row suffice: the second is shown too often. */
  lemma PrintedTwice(e: Entry, path: seq<Entry>, o: Options, k: nat)
    requires !o.tree && WrapPoint(e, |path|, o, k)
    ensures PrintedFor(Select(e, 0, path, o))[Deep(e, k + 1)] > Bag(e)[Deep(e, k + 1)]
  {
    var p, q := BothSelected(e, path, o, k);
    BagHas(p.entry.children, q.entry);
    RepeatsBelow(e, 0, path, o, p, q.entry);
    NoTop([e]);
    assert (PrintedFor(Select(e, 0, path, o)) + multiset{})[q.entry] > Bag(e)[q.entry];
  }

  lemma {:induction false} BagHas(cs: seq<Entry>, c: Entry)
    requires c in cs
    ensures c in BagAll(cs)
  {
    assert c in Bag(c);
    if c != cs[0] { BagHas(cs[1..], c); }
  }

  /** Each match is shown exactly once, whatever matches, exactly for these depth options. */
  lemma EveryMatchOnceExactly(root: Entry, depth: Word32)
    requires Height(root) < TWO32
    ensures (forall matches: Entry -> bool :: Covers(root, Options(depth, false, matches))) <==>
            Height(root) + depth <= TWO32 + 1
  {
    if Height(root) + depth <= TWO32 + 1 {
      forall matches: Entry -> bool ensures Covers(root, Options(depth, false, matches)) {
        EveryMatchOnce(root, Options(depth, false, matches));
      }
    } else {
      var o := WrappingOptions(root, depth, false);
      var b := Deep(root, TWO32 - depth + 1);
      PrintedTwice(root, [], o, TWO32 - depth);
      assert Printed(Blocks(Select(root, 0, [], o), false))[b] > Bag(root)[b];
      assert !Covers(root, Options(depth, false, o.matches));
    }
  }
}
