/** Where the entries that ioreg selects stand, and what happens where the depth suppression wraps. */
module IoregPicks {
  import opened Common
  import opened IoregSearch

  // ---- selected entries ----

  lemma {:induction false} SelectedBelow(cs: seq<Entry>, matched: nat, path: seq<Entry>, o: Options, p: Pick)
    returns (c: Entry)
    requires p in SelectAll(cs, matched, path, o)
    ensures c in cs && p in Select(c, matched, path, o) && Height(c) <= HeightAll(cs)
    decreases cs
  {
    if p in Select(cs[0], matched, path, o) {
      c := cs[0];
    } else {
      c := SelectedBelow(cs[1..], matched, path, o, p);
    }
  }

  /** The matched depth and the options with which search goes on below e. */
  function Below(e: Entry, matched: nat, path: seq<Entry>, o: Options): (nat, Options) {
    if Selects(e, matched, |path|, o) then (Suppress(o, |path|), Restored(o, |path|)) else (matched, o)
  }

  /** A selected entry is the entry itself or one selected below a child. */
  lemma SelectCases(e: Entry, matched: nat, path: seq<Entry>, o: Options, p: Pick) returns (c: Entry)
    requires p in Select(e, matched, path, o)
    ensures if p == Pick(e, path, o.depth) && Selects(e, matched, |path|, o) then c == e
            else var (m, o') := Below(e, matched, path, o);
                 c in e.children && Height(c) < Height(e) && p in Select(c, m, path + [e], o')
  {
    c := e;
    if !Selects(e, matched, |path|, o) || p != Pick(e, path, o.depth) {
      var (m, o') := Below(e, matched, path, o);
      c := SelectedBelow(e.children, m, path + [e], o', p);
    }
  }

  /** A selected entry lies in the tree, and beyond what is suppressed. */
  lemma {:induction false} SelectedBeyond(e: Entry, matched: nat, path: seq<Entry>, o: Options, p: Pick)
    requires p in Select(e, matched, path, o)
    ensures path + [e] <= p.path + [p.entry] && o.matches(p.entry)
    ensures |p.path| + Height(p.entry) <= |path| + Height(e)
    ensures |path| + Height(e) < TWO32 && Fits(Height(e), |path|, o) ==> matched <= |p.path|
    decreases e
  {
    var c := SelectCases(e, matched, path, o, p);
    var (m, o') := Below(e, matched, path, o);
    if p != Pick(e, path, o.depth) || !Selects(e, matched, |path|, o) {
      SelectedBeyond(c, m, path + [e], o', p);
    }
  }

  lemma {:induction false} InSelectAll(cs: seq<Entry>, i: nat, matched: nat, path: seq<Entry>, o: Options, p: Pick)
    requires i < |cs| && p in Select(cs[i], matched, path, o)
    ensures p in SelectAll(cs, matched, path, o)
  {
    if i > 0 { InSelectAll(cs[1..], i - 1, matched, path, o, p); }
  }

  // ---- the bound ----

  /** The addition in Suppress wraps at most for entries without children. */
  predicate Fits(height: nat, depth: nat, o: Options) {
    depth + height + o.depth <= TWO32 + 1
  }

  // ---- a path down to the lowest entry ----

  function Tallest(cs: seq<Entry>): (i: nat)
    requires cs != []
    ensures i < |cs| && Height(cs[i]) == HeightAll(cs)
  {
    if Height(cs[0]) > HeightAll(cs[1..]) then 0 else 1 + Tallest(cs[1..])
  }

  /** The entry k levels down on a deepest path. */
  function Deep(e: Entry, k: nat): (x: Entry)
    requires k < Height(e)
    ensures Height(x) == Height(e) - k
    decreases k
  {
    if k == 0 then e
    else
      assert e.children == [] ==> HeightAll(e.children) == 0;
      Deep(e.children[Tallest(e.children)], k - 1)
  }

  /** Only two entries on a deepest path match: one where the addition in Suppress yields 0, and its child. */
  ghost predicate WrapPoint(e: Entry, depth: nat, o: Options, k: nat) {
    && k + 1 < Height(e) && depth + Height(e) < TWO32 && depth + k + o.depth == TWO32
    && forall x :: o.matches(x) <==> x == Deep(e, k) || x == Deep(e, k + 1)
  }

  lemma WrapPointBelow(e: Entry, depth: nat, o: Options, k: nat)
    requires WrapPoint(e, depth, o, k) && k > 0
    ensures !o.matches(e)
    ensures var i := Tallest(e.children);
            && i < |e.children| && Height(e.children[i]) == HeightAll(e.children)
            && Deep(e.children[i], k) == Deep(e, k + 1)
            && WrapPoint(e.children[i], depth + 1, o, k - 1)
  {
    var c := e.children[Tallest(e.children)];
    assert Deep(e, k) == Deep(c, k - 1) && Deep(e, k + 1) == Deep(c, k);
    assert Height(Deep(e, k)) < Height(e) && Height(Deep(e, k + 1)) < Height(e);
  }

  /** Where the addition in Suppress yields 0, the child is selected right below; with tree display, without a limit. */
  lemma {:induction false} BothSelected(e: Entry, path: seq<Entry>, o: Options, k: nat) returns (p: Pick, q: Pick)
    requires WrapPoint(e, |path|, o, k)
    ensures p in Select(e, 0, path, o) && q in Select(e, 0, path, o)
    ensures q.path == p.path + [p.entry] && q.depth == if o.tree then 0 else o.depth
    ensures p.entry == Deep(e, k) && |p.path| == |path| + k && q.entry == Deep(e, k + 1) && q.entry in p.entry.children
    decreases e
  {
    var i := Tallest(e.children);
    var c := e.children[i];
    if k == 0 {
      var o' := Restored(o, |path|);
      p, q := Pick(e, path, o.depth), Pick(c, path + [e], o'.depth);
      assert Deep(e, 1) == Deep(c, 0) == c;
      assert Suppress(o, |path|) == 0 && o.matches(e) && o'.matches(c);
      InSelectAll(e.children, i, 0, path + [e], o', q);
    } else {
      WrapPointBelow(e, |path|, o, k);
      p, q := BothSelected(c, path + [e], o, k - 1);
      InSelectAll(e.children, i, 0, path + [e], o, p);
      InSelectAll(e.children, i, 0, path + [e], o, q);
    }
  }

  /** The entries that show that the bound is exact. */
  function WrappingOptions(root: Entry, depth: Word32, tree: bool): Options
    requires Height(root) < TWO32 && Height(root) + depth > TWO32 + 1
  {
    Options(depth, tree, (x: Entry) => x == Deep(root, TWO32 - depth) || x == Deep(root, TWO32 - depth + 1))
  }
}
