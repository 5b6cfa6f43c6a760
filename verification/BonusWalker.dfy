/** dumpTreeNode of src/6-bonus.c: walking a device tree in memory. */
module BonusWalker {
  import opened Common
  import opened DeviceTree
  import opened DtizeReader

  /** The memory that may be read: mem, from address base on. */
  function WordAt(mem: seq<byte>, base: nat, a: nat): (w: Option<Word32>)
    ensures w.Some? <==> base <= a && a + 4 <= base + |mem|
  {
    if base <= a && a + 4 <= base + |mem| then Some(Word(mem[a - base..])) else None
  }

  /** The next multiple of four. */
  function Align(a: nat): (b: nat)
    ensures a <= b < a + 4 && b % 4 == 0
  {
    if a % 4 != 0 then a + (4 - a % 4) else a
  }

  /** Where n properties from dtp on end. */
  function PropsEnd(mem: seq<byte>, base: nat, dtp: nat, n: nat): (end: Option<nat>)
    ensures end.Some? ==> end.value >= dtp
    decreases n
  {
    if n == 0 then Some(dtp)
    else
      match WordAt(mem, base, dtp + 32)
      case None => None
      case Some(length) => PropsEnd(mem, base, Align(dtp + 36 + length), n - 1)
  }

  /** How much memory there is from a on. */
  function Left(mem: seq<byte>, base: nat, a: nat): nat {
    if base <= a < base + |mem| then base + |mem| - a else 0
  }

  /** What dumpTreeNode returns, or None when it reads outside the memory: the loops as they are, on any memory. */
  function Extent(mem: seq<byte>, base: nat, node: nat): Option<Word32>
    requires base > 0
    decreases Left(mem, base, node), 0, 0
  {
    match WordAt(mem, base, node)
    case None => None
    case Some(nProperties) =>
      match WordAt(mem, base, node + 4)
      case None => None
      case Some(nChildren) =>
        match PropsEnd(mem, base, node + 8, nProperties)
        case None => None
        case Some(dtp) =>
          match KidsEnd(mem, base, if nProperties == 0 then 0 else dtp, nChildren)
          case None => None
          case Some(offset) => Some((offset - node) % TWO32)
  }

  /** Where n children from offset on end. */
  function KidsEnd(mem: seq<byte>, base: nat, offset: nat, n: nat): Option<nat>
    requires base > 0
    decreases Left(mem, base, offset), 1, n
  {
    if n == 0 then Some(offset)
    else
      match Extent(mem, base, offset)
      case None => None
      case Some(extent) => KidsEnd(mem, base, offset + extent, n - 1)
  }

  // ---- the routine ----

  /** The first loop; offset stays null without properties. */
  method WalkProps(mem: seq<byte>, base: nat, dtp0: nat, n: nat) returns (offset: Option<nat>)
    ensures offset == if n == 0 then Some(0) else PropsEnd(mem, base, dtp0, n)
  {
    offset := Some(0);
    var dtp: nat := dtp0;
    for prop := 0 to n
      invariant PropsEnd(mem, base, dtp0, n) == PropsEnd(mem, base, dtp, n - prop)
      invariant offset == Some(if prop == 0 then 0 else dtp)
    {
      var length := WordAt(mem, base, dtp + 32);
      if length.None? { return None; }
      dtp := dtp + 36 + length.value;
      dtp := if dtp % 4 != 0 then dtp + (4 - dtp % 4) else dtp;
      offset := Some(dtp);
    }
  }

  method DumpTreeNode(mem: seq<byte>, base: nat, node: nat) returns (extent: Option<Word32>)
    requires base > 0
    ensures extent == Extent(mem, base, node)
    decreases Left(mem, base, node), 0
  {
    var nProperties, nChildren := WordAt(mem, base, node), WordAt(mem, base, node + 4);
    if nProperties.None? || nChildren.None? { return None; }
    var offset := WalkProps(mem, base, node + 8, nProperties.value);
    if offset.None? { return None; }
    offset := DumpChildren(mem, base, offset.value, nChildren.value);
    if offset.None? { return None; }
    extent := Some((offset.value - node) % TWO32);
  }

  /** The second loop: each child begins where the last one ended. */
  method DumpChildren(mem: seq<byte>, base: nat, offset0: nat, n: nat) returns (offset: Option<nat>)
    requires base > 0
    ensures offset == KidsEnd(mem, base, offset0, n)
    decreases Left(mem, base, offset0), 1
  {
    var at := offset0;
    for child := 0 to n
      invariant at >= offset0 && KidsEnd(mem, base, offset0, n) == KidsEnd(mem, base, at, n - child)
      invariant at == offset0 || base <= offset0
    {
      var extent := DumpTreeNode(mem, base, at);
      if extent.None? { return None; }
      at := at + extent.value;
    }
    offset := Some(at);
  }

  // ---- which trees it measures ----

  /** Every node has a property, and length words carry no flags. */
  predicate Walkable(t: Node)
    decreases t, 1
  {
    t.props != [] && FlagFree(t.props) && WalkableAll(t.children)
  }

  predicate WalkableAll(ts: seq<Node>)
    decreases ts, 0
  {
    ts == [] || (Walkable(ts[0]) && WalkableAll(ts[1..]))
  }

  predicate FlagFree(ps: seq<Prop>) {
    ps == [] || (ps[0].flags == 0 && FlagFree(ps[1..]))
  }

  /** The lower half of an address. */
  function Lower(a: nat): Word32 { a % TWO32 }

  /** An image of less than 128 MB, neither at nor across a multiple of 4 GB. */
  predicate Loaded(mem: seq<byte>, base: nat) {
    base > 0 && 0 < Lower(base) && Lower(base) + |mem| < TWO32 && |mem| < 0x800_0000
  }

  /** What is to be measured is walkable and less than 4 GB, or it is in an image loaded as above. */
  predicate Tame(mem: seq<byte>, base: nat, ok: bool, size: nat) {
    base > 0 && (Loaded(mem, base) || (ok && size < TWO32))
  }

  /** s lies in memory at address a. */
  ghost predicate LiesAt(mem: seq<byte>, base: nat, a: nat, s: seq<byte>) {
    Bytes(mem, base, a, |s|) == Some(s)
  }

  /** The n bytes at a, if they are in the memory. */
  ghost function Bytes(mem: seq<byte>, base: nat, a: nat, n: nat): Option<seq<byte>> {
    if base <= a && a + n <= base + |mem| then Some(mem[a - base..a - base + n]) else None
  }

  /** The address behind s. */
  function After(a: nat, s: seq<byte>): nat { a + |s| }

  /** Past the image, but less than 4 GB away: nothing can be read there, and no difference of addresses wraps. */
  ghost predicate Past(mem: seq<byte>, base: nat, a: nat) {
    base + |mem| < a < base + TWO32
  }

  /** A place reached: the right one, or for a tree that is not walkable none in the image. */
  ghost predicate Ends(end: Option<nat>, right: nat, ok: bool, mem: seq<byte>, base: nat) {
    if ok then end == Some(right) else end.None? || Past(mem, base, end.value)
  }

  lemma PastEnds(mem: seq<byte>, base: nat, a: nat, n: nat)
    requires base > 0 && Past(mem, base, a)
    ensures var end := PropsEnd(mem, base, a, n); end.None? || end == Some(a)
    ensures var end := KidsEnd(mem, base, a, n); end.None? || end == Some(a)
  {
  }

  lemma LiesSplit(mem: seq<byte>, base: nat, a: nat, x: seq<byte>, y: seq<byte>)
    requires LiesAt(mem, base, a, x + y)
    ensures LiesAt(mem, base, a, x) && LiesAt(mem, base, a + |x|, y)
  {
    var s, i := x + y, a - base;
    assert mem[i..i + |x|] == s[..|x|] == x;
    assert mem[i + |x|..i + |s|] == s[|x|..] == y;
  }

  lemma WordLies(mem: seq<byte>, base: nat, a: nat, n: Word32)
    requires LiesAt(mem, base, a, Le32(n))
    ensures WordAt(mem, base, a) == Some(n)
  {
    var w := Le32(n);
    assert mem[a - base..] == w + mem[a - base + 4..];
    WordOfLe32(n, mem[a - base + 4..]);
  }

  predicate Aligned(a: nat) { Align(a) == a }

  lemma AlignedSum(a: nat, b: nat)
    requires Aligned(a) && Aligned(b)
    ensures Aligned(a + b)
  {
  }

  lemma AlignIs(a: nat, b: nat)
    requires a <= b < a + 4 && Aligned(b)
    ensures Align(a) == b
  {
  }

  lemma Pad32Aligned(n: nat)
    ensures Aligned(36 + Pad32(n))
  {
  }

  lemma PropSize(a: nat, p: Prop)
    requires WellFormedProp(p) && Aligned(a)
    ensures Aligned(|SerProp(p)|)
    ensures p.flags == 0 ==> Align(a + 36 + |p.value|) == a + |SerProp(p)|
  {
    var n, m := |p.value|, Pad32(|p.value|);
    assert |SerProp(p)| == 36 + m && n <= m < n + 4;
    hide SerProp, WellFormedProp, Aligned, Align, Pad32;
    Pad32Aligned(n);
    AlignedSum(a, 36 + m);
    AlignIs(a + 36 + n, a + (36 + m));
  }

  /** A property in memory: its length word counts the flags as length. */
  lemma PropAt(mem: seq<byte>, base: nat, a: nat, p: Prop)
    requires WellFormedProp(p) && LiesAt(mem, base, a, SerProp(p))
    ensures WordAt(mem, base, a + 32) == Some(p.flags * FLAG_UNIT + |p.value|)
  {
    var w := p.flags * FLAG_UNIT + |p.value|;
    var body := p.value + p.pad;
    Assoc4(p.name, Le32(w), p.value, p.pad);
    assert SerProp(p) == p.name + (Le32(w) + body) && |p.name| == 32;
    hide *;
    LiesSplit(mem, base, a, p.name, Le32(w) + body);
    LiesSplit(mem, base, a + 32, Le32(w), body);
    WordLies(mem, base, a + 32, w);
  }

  lemma FlaggedProp(mem: seq<byte>, base: nat, a: nat, p: Prop)
    requires WellFormedProp(p) && p.flags != 0 && Loaded(mem, base) && base <= a <= base + |mem|
    ensures Past(mem, base, Align(a + 36 + (p.flags * FLAG_UNIT + |p.value|)))
  {
  }

  /** The first property, and the others behind it. */
  lemma PropsSplit(mem: seq<byte>, base: nat, a: nat, ps: seq<Prop>)
    requires WellFormedProps(ps) && ps != [] && LiesAt(mem, base, a, SerProps(ps))
    ensures WellFormedProp(ps[0]) && WellFormedProps(ps[1..])
    ensures LiesAt(mem, base, a, SerProp(ps[0])) && LiesAt(mem, base, After(a, SerProp(ps[0])), SerProps(ps[1..]))
    ensures After(a, SerProps(ps)) == After(After(a, SerProp(ps[0])), SerProps(ps[1..]))
  {
    assert SerProps(ps) == SerProp(ps[0]) + SerProps(ps[1..]);
    hide Bytes, Align, LiesAt, SerProp, SerProps, WellFormedProp;
    LiesSplit(mem, base, a, SerProp(ps[0]), SerProps(ps[1..]));
  }

  lemma PropsUnfold(mem: seq<byte>, base: nat, a: nat, ps: seq<Prop>)
    requires ps != [] && WordAt(mem, base, a + 32) == Some(ps[0].flags * FLAG_UNIT + |ps[0].value|)
    ensures PropsEnd(mem, base, a, |ps|) ==
            PropsEnd(mem, base, Align(a + 36 + (ps[0].flags * FLAG_UNIT + |ps[0].value|)), |ps| - 1)
  {
  }

  /** A property without flags: the next one is found. */
  lemma FlagFreeStep(mem: seq<byte>, base: nat, a: nat, ps: seq<Prop>)
    requires WellFormedProps(ps) && ps != [] && LiesAt(mem, base, a, SerProps(ps)) && Aligned(a)
    requires WellFormedProp(ps[0]) && ps[0].flags == 0
    ensures var next := After(a, SerProp(ps[0]));
            PropsEnd(mem, base, a, |ps|) == PropsEnd(mem, base, next, |ps| - 1) && Aligned(next)
  {
    hide Bytes, Align, LiesAt, SerProp, SerProps, WellFormedProp, PropsEnd, WordAt, WellFormedProps, Aligned;
    PropsSplit(mem, base, a, ps);
    PropAt(mem, base, a, ps[0]);
    PropsUnfold(mem, base, a, ps);
    PropSize(a, ps[0]);
    AlignedSum(a, |SerProp(ps[0])|);
  }

  /** A property with flags: the next one is looked for outside the image. */
  lemma FlaggedStep(mem: seq<byte>, base: nat, a: nat, ps: seq<Prop>)
    requires Loaded(mem, base) && WellFormedProps(ps) && ps != [] && LiesAt(mem, base, a, SerProps(ps))
    requires ps[0].flags != 0
    ensures Ends(PropsEnd(mem, base, a, |ps|), After(a, SerProps(ps)), FlagFree(ps), mem, base)
  {
    var p := ps[0];
    var next := Align(a + 36 + (p.flags * FLAG_UNIT + |p.value|));
    assert !FlagFree(ps) && base <= a <= base + |mem| && base > 0;
    hide Bytes, Align, LiesAt, SerProp, SerProps, WellFormedProp, PropsEnd, WordAt;
    hide WellFormedProps, Loaded, FlagFree, Past;
    PropsSplit(mem, base, a, ps);
    PropAt(mem, base, a, p);
    PropsUnfold(mem, base, a, ps);
    FlaggedProp(mem, base, a, p);
    PastEnds(mem, base, next, |ps| - 1);
  }

  lemma {:induction false} PropsMeasured(mem: seq<byte>, base: nat, a: nat, ps: seq<Prop>)
    requires base > 0 && (Loaded(mem, base) || FlagFree(ps))
    requires WellFormedProps(ps) && LiesAt(mem, base, a, SerProps(ps)) && Aligned(a)
    ensures Ends(PropsEnd(mem, base, a, |ps|), After(a, SerProps(ps)), FlagFree(ps), mem, base)
    decreases |ps|
  {
    if ps == [] { return; }
    if ps[0].flags != 0 {
      FlaggedStep(mem, base, a, ps);
      return;
    }
    assert FlagFree(ps) == FlagFree(ps[1..]) && |ps| - 1 == |ps[1..]|;
    hide Lower, After, Bytes, Align, LiesAt, Ser, SerAll, SerProp, SerProps, WordAt, PropsEnd, KidsEnd, Extent;
    hide Ends, Past, Loaded, Aligned, WellFormedNode, WellFormedAll, WellFormedProp, WellFormedProps, Walkable;
    hide WalkableAll, FlagFree, Le32;
    PropsSplit(mem, base, a, ps);
    FlagFreeStep(mem, base, a, ps);
    PropsMeasured(mem, base, After(a, SerProp(ps[0])), ps[1..]);
  }

  lemma {:induction false} SerPropsAligned(ps: seq<Prop>)
    requires WellFormedProps(ps)
    ensures Aligned(|SerProps(ps)|)
  {
    if ps == [] { return; }
    assert |SerProps(ps)| == |SerProp(ps[0])| + |SerProps(ps[1..])| && Aligned(0);
    assert WellFormedProp(ps[0]) && WellFormedProps(ps[1..]);
    hide SerProps, SerProp, Aligned, WellFormedProps, WellFormedProp;
    PropSize(0, ps[0]);
    SerPropsAligned(ps[1..]);
    AlignedSum(|SerProp(ps[0])|, |SerProps(ps[1..])|);
  }

  /** A node in memory: its counts, its properties, its children. */
  lemma NodeAt(mem: seq<byte>, base: nat, a: nat, t: Node)
    requires WellFormedNode(t) && LiesAt(mem, base, a, Ser(t))
    ensures WordAt(mem, base, a) == Some(|t.props|) && WordAt(mem, base, a + 4) == Some(|t.children|)
    ensures LiesAt(mem, base, a + 8, SerProps(t.props))
    ensures LiesAt(mem, base, After(a + 8, SerProps(t.props)), SerAll(t.children))
    ensures After(a, Ser(t)) == After(After(a + 8, SerProps(t.props)), SerAll(t.children))
  {
    var x, y, z, u := Le32(|t.props|), Le32(|t.children|), SerProps(t.props), SerAll(t.children);
    Assoc4(x, y, z, u);
    assert Ser(t) == x + (y + (z + u)) && |x| == |y| == 4;
    assert |Ser(t)| == 4 + (4 + (|z| + |u|));
    hide Lower, After, Bytes, Align, LiesAt, Ser, SerAll, SerProp, SerProps, WordAt, PropsEnd, KidsEnd, Extent;
    hide Ends, Past, Loaded, Aligned, WellFormedNode, WellFormedAll, WellFormedProp, WellFormedProps, Walkable;
    hide WalkableAll, FlagFree, Le32;
    LiesSplit(mem, base, a, x, y + (z + u));
    LiesSplit(mem, base, a + 4, y, z + u);
    LiesSplit(mem, base, a + 8, z, u);
    WordLies(mem, base, a, |t.props|);
    WordLies(mem, base, a + 4, |t.children|);
  }

  /** Without a property, children are looked for at address 0; a leaf has the extent up to the next 4 GB. */
  lemma NoPropsExtent(mem: seq<byte>, base: nat, a: nat, n: nat)
    requires Loaded(mem, base) && base <= a <= base + |mem|
    ensures n > 0 ==> KidsEnd(mem, base, 0, n).None?
    ensures KidsEnd(mem, base, 0, 0) == Some(0) && Past(mem, base, a + (0 - a) % TWO32)
  {
    var low := base % TWO32;
    assert (a - base) + low < TWO32 && base == base / TWO32 * TWO32 + low;
    NegativeMod(base / TWO32, low + (a - base));
  }

  lemma NegativeMod(h: int, x: int)
    requires 0 < x < TWO32
    ensures (0 - (h * TWO32 + x)) % TWO32 == TWO32 - x
  {
    assert 0 - (h * TWO32 + x) == (-1 - h) * TWO32 + (TWO32 - x);
  }

  lemma SmallMod(x: nat)
    requires x < TWO32
    ensures x % TWO32 == x
  {
  }

  /** The two loops of a node put together. */
  lemma ExtentUnfold(mem: seq<byte>, base: nat, a: nat, props: Word32, kids: Word32)
    requires base > 0 && WordAt(mem, base, a) == Some(props) && WordAt(mem, base, a + 4) == Some(kids)
    ensures var dtp := PropsEnd(mem, base, a + 8, props);
            Extent(mem, base, a) ==
            if dtp.None? then None
            else
              var offset := KidsEnd(mem, base, if props == 0 then 0 else dtp.value, kids);
              if offset.None? then None else Some((offset.value - a) % TWO32)
  {
  }

  /** The address behind an extent. */
  function Behind(a: nat, extent: Option<Word32>): Option<nat> {
    if extent.None? then None else Some(a + extent.value)
  }

  lemma SmallExtent(mem: seq<byte>, base: nat, a: nat, offset: Option<nat>, right: nat, ok: bool)
    requires base <= a < right <= base + |mem| && right < a + TWO32 && Ends(offset, right, ok, mem, base)
    ensures Ends(Behind(a, if offset.None? then None else Some((offset.value - a) % TWO32)), right, ok, mem, base)
  {
    if offset.Some? { SmallMod(offset.value - a); }
  }

  /** A node is as its loops are. */
  lemma NodeExtent(mem: seq<byte>, base: nat, a: nat, props: Word32, n: Word32, kids: nat, right: nat, free: bool,
      others: bool)
    requires base <= a < right <= base + |mem| && Tame(mem, base, props != 0 && free && others, right - a)
    requires WordAt(mem, base, a) == Some(props) && WordAt(mem, base, a + 4) == Some(n)
    requires Ends(PropsEnd(mem, base, a + 8, props), kids, free, mem, base)
    requires Ends(KidsEnd(mem, base, kids, n), right, others, mem, base)
    ensures Ends(Behind(a, Extent(mem, base, a)), right, props != 0 && free && others, mem, base)
  {
    var dtp := PropsEnd(mem, base, a + 8, props);
    hide WordAt, PropsEnd, KidsEnd, Extent, Past;
    ExtentUnfold(mem, base, a, props, n);
    if props == 0 {
      NoPropsExtent(mem, base, a, n);
    } else if dtp.Some? {
      if !free { PastEnds(mem, base, dtp.value, n); }
      SmallExtent(mem, base, a, KidsEnd(mem, base, dtp.value, n), right, free && others);
    }
  }

  lemma WalkableUnfold(t: Node)
    requires WellFormedNode(t)
    ensures WellFormedProps(t.props) && WellFormedAll(t.children)
    ensures Walkable(t) == (|t.props| != 0 && FlagFree(t.props) && WalkableAll(t.children))
  {
  }

  lemma TameNode(mem: seq<byte>, base: nat, a: nat, t: Node)
    requires WellFormedNode(t) && Tame(mem, base, Walkable(t), |Ser(t)|)
    ensures WellFormedAll(t.children)
    ensures base > 0 && (Loaded(mem, base) || FlagFree(t.props))
    ensures Tame(mem, base, WalkableAll(t.children), |SerAll(t.children)|)
    ensures Tame(mem, base, Walkable(t), After(a, Ser(t)) - a)
  {
    assert |Ser(t)| >= |SerAll(t.children)|;
    hide Ser, SerAll, SerProps, Loaded;
  }

  /** Where a subtree in memory ends. */
  lemma NodeInside(mem: seq<byte>, base: nat, a: nat, t: Node)
    requires WellFormedNode(t) && LiesAt(mem, base, a, Ser(t))
    ensures base <= a < After(a, Ser(t)) <= base + |mem|
  {
  }

  /** The extent is the number of bytes of the subtree if it is walkable, and otherwise leads out of the image. */
  lemma {:induction false} NodeMeasured(mem: seq<byte>, base: nat, a: nat, t: Node)
    requires WellFormedNode(t) && Tame(mem, base, Walkable(t), |Ser(t)|)
    requires LiesAt(mem, base, a, Ser(t)) && Aligned(a)
    ensures Ends(Behind(a, Extent(mem, base, a)), After(a, Ser(t)), Walkable(t), mem, base)
    ensures Aligned(|Ser(t)|)
    decreases t, 1
  {
    hide Lower, After, Bytes, Align, LiesAt, Ser, SerAll, SerProp, SerProps, WordAt, PropsEnd, KidsEnd, Extent, Ends;
    hide Past, Loaded, Aligned, WellFormedNode, WellFormedAll, WellFormedProp, WellFormedProps, Walkable, WalkableAll;
    hide FlagFree, Le32, Tame;
    WalkableUnfold(t);
    NodeInside(mem, base, a, t);
    TameNode(mem, base, a, t);
    NodeAt(mem, base, a, t);
    AlignedProps(a, t.props);
    var kids := After(a + 8, SerProps(t.props));
    PropsMeasured(mem, base, a + 8, t.props);
    KidsMeasured(mem, base, kids, t.children);
    AlignedNode(t);
    NodeExtent(mem, base, a, |t.props|, |t.children|, kids, After(a, Ser(t)), FlagFree(t.props),
               WalkableAll(t.children));
  }

  lemma AlignedProps(a: nat, ps: seq<Prop>)
    requires Aligned(a) && WellFormedProps(ps)
    ensures Aligned(a + 8) && Aligned(After(a + 8, SerProps(ps)))
  {
    assert Aligned(8);
    hide Aligned, SerProps, WellFormedProps;
    AlignedSum(a, 8);
    SerPropsAligned(ps);
    AlignedAfter(a + 8, SerProps(ps));
  }

  lemma AlignedNode(t: Node)
    requires WellFormedNode(t) && Aligned(|SerAll(t.children)|)
    ensures Aligned(|Ser(t)|)
  {
    SerPropsAligned(t.props);
    assert |Ser(t)| == 8 + |SerProps(t.props)| + |SerAll(t.children)| && Aligned(8);
    hide Ser, SerAll, SerProps, Aligned;
    AlignedSum(8, |SerProps(t.props)|);
    AlignedSum(8 + |SerProps(t.props)|, |SerAll(t.children)|);
  }

  /** The first child, and the others behind it. */
  lemma KidsSplit(mem: seq<byte>, base: nat, a: nat, ts: seq<Node>)
    requires WellFormedAll(ts) && ts != [] && LiesAt(mem, base, a, SerAll(ts))
    ensures WellFormedNode(ts[0]) && WellFormedAll(ts[1..])
    ensures LiesAt(mem, base, a, Ser(ts[0])) && LiesAt(mem, base, After(a, Ser(ts[0])), SerAll(ts[1..]))
    ensures After(a, SerAll(ts)) == After(After(a, Ser(ts[0])), SerAll(ts[1..]))
  {
    assert SerAll(ts) == Ser(ts[0]) + SerAll(ts[1..]);
    hide LiesAt, Ser, SerAll, WellFormedNode;
    LiesSplit(mem, base, a, Ser(ts[0]), SerAll(ts[1..]));
  }

  lemma KidsUnfold(mem: seq<byte>, base: nat, a: nat, ts: seq<Node>)
    requires base > 0 && ts != []
    ensures WalkableAll(ts) <==> Walkable(ts[0]) && WalkableAll(ts[1..])
    ensures var extent := Extent(mem, base, a);
            KidsEnd(mem, base, a, |ts|) ==
            if extent.None? then None else KidsEnd(mem, base, a + extent.value, |ts[1..]|)
  {
    assert |ts| - 1 == |ts[1..]|;
  }

  /** The first child and the others: one wrong extent is never made good. */
  lemma KidsStep(mem: seq<byte>, base: nat, a: nat, extent: Option<Word32>, n: nat, next: nat, first: bool,
      right: nat, others: bool, end: Option<nat>, all: bool)
    requires base > 0 && Ends(Behind(a, extent), next, first, mem, base)
    requires Ends(KidsEnd(mem, base, next, n), right, others, mem, base)
    requires end == if extent.None? then None else KidsEnd(mem, base, a + extent.value, n)
    requires all <==> first && others
    ensures Ends(end, right, all, mem, base)
  {
    if extent.Some? && !first { PastEnds(mem, base, a + extent.value, n); }
  }

  lemma NoKids(mem: seq<byte>, base: nat, a: nat)
    requires base > 0
    ensures Ends(KidsEnd(mem, base, a, 0), After(a, SerAll([])), WalkableAll([]), mem, base)
    ensures Aligned(|SerAll([])|)
  {
  }

  lemma TameKids(mem: seq<byte>, base: nat, ts: seq<Node>)
    requires WellFormedAll(ts) && Tame(mem, base, WalkableAll(ts), |SerAll(ts)|)
    ensures base > 0
    ensures ts != [] ==> Tame(mem, base, Walkable(ts[0]), |Ser(ts[0])|)
    ensures ts != [] ==> Tame(mem, base, WalkableAll(ts[1..]), |SerAll(ts[1..])|)
  {
    assert ts != [] ==> |SerAll(ts)| == |Ser(ts[0])| + |SerAll(ts[1..])|;
    hide Ser, SerAll, Loaded;
  }

  lemma {:induction false} KidsMeasured(mem: seq<byte>, base: nat, a: nat, ts: seq<Node>)
    requires WellFormedAll(ts) && Tame(mem, base, WalkableAll(ts), |SerAll(ts)|)
    requires LiesAt(mem, base, a, SerAll(ts)) && Aligned(a)
    ensures base > 0 && Ends(KidsEnd(mem, base, a, |ts|), After(a, SerAll(ts)), WalkableAll(ts), mem, base)
    ensures Aligned(|SerAll(ts)|)
    decreases ts, 0
  {
    hide Lower, After, Bytes, Align, LiesAt, Ser, SerAll, KidsEnd, Extent, Ends, Past, Loaded, Aligned, Tame;
    hide WellFormedNode, WellFormedAll, Walkable, WalkableAll;
    TameKids(mem, base, ts);
    if ts == [] {
      NoKids(mem, base, a);
      return;
    }
    var t, more := ts[0], ts[1..];
    KidsUnfold(mem, base, a, ts);
    KidsSplit(mem, base, a, ts);
    var next := After(a, Ser(t));
    NodeMeasured(mem, base, a, t);
    AlignedAfter(a, Ser(t));
    KidsMeasured(mem, base, next, more);
    AlignedAll(ts);
    KidsStep(mem, base, a, Extent(mem, base, a), |more|, next, Walkable(t), After(a, SerAll(ts)), WalkableAll(more),
             KidsEnd(mem, base, a, |ts|), WalkableAll(ts));
  }

  lemma AlignedAfter(a: nat, s: seq<byte>)
    requires Aligned(a) && Aligned(|s|)
    ensures Aligned(After(a, s))
  {
  }

  lemma AlignedAll(ts: seq<Node>)
    requires WellFormedAll(ts) && ts != []
    requires Aligned(|Ser(ts[0])|) && Aligned(|SerAll(ts[1..])|)
    ensures Aligned(|SerAll(ts)|)
  {
    assert |SerAll(ts)| == |Ser(ts[0])| + |SerAll(ts[1..])|;
    hide Ser, SerAll, Aligned;
    AlignedSum(|Ser(ts[0])|, |SerAll(ts[1..])|);
  }

  /** dumpTreeNode measures every walkable tree of less than 4 GB, wherever it lies and whatever follows it. */
  lemma MeasuresWalkable(mem: seq<byte>, base: nat, a: nat, t: Node)
    requires base > 0 && WellFormedNode(t) && LiesAt(mem, base, a, Ser(t)) && Aligned(a)
    requires Walkable(t) && |Ser(t)| < TWO32
    ensures Extent(mem, base, a) == Some(|Ser(t)|)
  {
    hide Extent, Walkable, Ser;
    NodeMeasured(mem, base, a, t);
  }

  /** And it measures only these, unless a large image or a wrapping address lets it come out right by accident. */
  lemma MeasuresExactly(mem: seq<byte>, base: nat, a: nat, t: Node)
    requires Loaded(mem, base) && WellFormedNode(t) && LiesAt(mem, base, a, Ser(t)) && Aligned(a)
    ensures Extent(mem, base, a) == Some(|Ser(t)|) <==> Walkable(t)
  {
    hide Extent, Walkable, Ser;
    NodeMeasured(mem, base, a, t);
  }

  /** Such an accident: a leaf without properties, eight bytes below 4 GB. */
  lemma MeasuredByAccident()
    ensures var (t, base) := (Node([], []), TWO32 - 8);
            && WellFormedNode(t) && !Walkable(t)
            && LiesAt(Ser(t), base, base, Ser(t)) && Extent(Ser(t), base, base) == Some(|Ser(t)|)
  {
    var t, base := Node([], []), TWO32 - 8;
    assert Ser(t) == [0, 0, 0, 0, 0, 0, 0, 0] && Ser(t)[..|Ser(t)|] == Ser(t);
    assert WordAt(Ser(t), base, base) == Some(0) && WordAt(Ser(t), base, base + 4) == Some(0);
    ExtentUnfold(Ser(t), base, base, 0, 0);
  }

  /** On one and the same image both programs measure the same extent if the tree is walkable, and only then. */
  method BothMeasure(t: Node, tail: seq<byte>, base: nat) returns (consumed: nat, extent: Option<Word32>)
    requires WellFormedNode(t) && base > 0 && base % 4 == 0
    ensures consumed == |Ser(t)|
    ensures Walkable(t) && consumed < TWO32 ==> extent == Some(consumed)
    ensures Loaded(Ser(t) + tail, base) && extent == Some(consumed) ==> Walkable(t)
  {
    var lines, indent;
    lines, consumed, indent := ReadTree(t, tail);
    var image := Ser(t) + tail;
    assert LiesAt(image, base, base, Ser(t)) && Aligned(base);
    hide Extent, LiesAt, Ser, Walkable, Loaded, Aligned;
    if Walkable(t) && consumed < TWO32 { MeasuresWalkable(image, base, base, t); }
    if Loaded(image, base) { MeasuresExactly(image, base, base, t); }
    extent := DumpTreeNode(image, base, base);
  }
}
