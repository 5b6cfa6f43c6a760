/** The listing that getDTNode of src/dtize.c prints, read back: it determines the tree. */
module DtizeListing {
  import opened Common
  import opened DeviceTree
  import opened DtizeReader

  /** A tree without flags and padding, which are not printed. */
  datatype Bare = Bare(props: seq<Item>, children: seq<Bare>)

  datatype Item = Item(name: seq<byte>, value: seq<byte>)

  function Strip(t: Node): Bare
    decreases t, 1
  {
    Bare(StripProps(t.props), StripAll(t.children))
  }

  function StripProps(ps: seq<Prop>): seq<Item> {
    if ps == [] then [] else [Item(ps[0].name, ps[0].value)] + StripProps(ps[1..])
  }

  function StripAll(ts: seq<Node>): seq<Bare>
    decreases ts, 0
  {
    if ts == [] then [] else [Strip(ts[0])] + StripAll(ts[1..])
  }

  /** What has been read, and the lines behind it. */
  datatype Got<T> = Got(value: T, rest: seq<Line>) | Wrong

  /** n properties, every one at this indentation. */
  function ReadItems(lines: seq<Line>, n: nat, indent: nat): (g: Got<seq<Item>>)
    ensures g.Got? ==> |g.rest| <= |lines|
  {
    if n == 0 then Got([], lines)
    else if lines == [] || !lines[0].Property? || lines[0].indent != indent then Wrong
    else
      var g := ReadItems(lines[1..], n - 1, indent);
      if g.Wrong? then Wrong else Got([Item(lines[0].name, lines[0].value)] + g.value, g.rest)
  }

  /** A node: how many properties and children it has, the properties, the children one step further in. */
  function ReadNode(lines: seq<Line>, indent: nat): (g: Got<Bare>)
    ensures g.Got? ==> |g.rest| < |lines|
    decreases |lines|, 0
  {
    if lines == [] || !lines[0].Counts? then Wrong
    else
      var g := ReadItems(lines[1..], lines[0].props, indent);
      if g.Wrong? then Wrong
      else
        var k := ReadChildren(g.rest, 0, lines[0].children, indent + 1);
        if k.Wrong? then Wrong else Got(Bare(g.value, k.value), k.rest)
  }

  /** The children from number c up to n, each under its heading. */
  function ReadChildren(lines: seq<Line>, c: nat, n: nat, indent: nat): (g: Got<seq<Bare>>)
    ensures g.Got? ==> |g.rest| <= |lines|
    decreases |lines|, 1
  {
    if c >= n then Got([], lines)
    else if lines == [] || lines[0] != Child(c) then Wrong
    else
      var g := ReadNode(lines[1..], indent);
      if g.Wrong? then Wrong
      else
        var k := ReadChildren(g.rest, c + 1, n, indent);
        if k.Wrong? then Wrong else Got([g.value] + k.value, k.rest)
  }

  lemma {:induction false} ReadItemsBack(ps: seq<Prop>, indent: nat, rest: seq<Line>)
    ensures ReadItems(PropLines(ps, indent) + rest, |ps|, indent) == Got(StripProps(ps), rest)
  {
    if ps == [] {
      assert [] + rest == rest;
      return;
    }
    var lines := PropLines(ps, indent) + rest;
    assert lines[0] == Property(indent, ps[0].name, ps[0].value);
    assert lines[1..] == PropLines(ps[1..], indent) + rest;
    ReadItemsBack(ps[1..], indent, rest);
  }

  /** A printed tree is read back, and nothing behind it is touched. */
  lemma {:induction false} ReadBack(t: Node, indent: nat, rest: seq<Line>)
    ensures ReadNode(NodeLines(t, indent) + rest, indent) == Got(Strip(t), rest)
    decreases t, 1
  {
    var lines := NodeLines(t, indent) + rest;
    var tail := ChildLines(t.children, indent + 1, 0) + rest;
    assert lines[0] == Counts(|t.props|, |t.children|);
    assert lines[1..] == PropLines(t.props, indent) + tail;
    ReadItemsBack(t.props, indent, tail);
    ReadChildrenBack(t.children, 0, indent + 1, rest);
    hide NodeLines, PropLines, ChildLines, ReadItems, ReadChildren, StripProps, StripAll;
  }

  lemma {:induction false} ReadChildrenBack(ts: seq<Node>, c: nat, indent: nat, rest: seq<Line>)
    ensures ReadChildren(ChildLines(ts, indent, c) + rest, c, c + |ts|, indent) == Got(StripAll(ts), rest)
    decreases ts, 0
  {
    if ts == [] {
      assert [] + rest == rest;
      return;
    }
    var lines := ChildLines(ts, indent, c) + rest;
    var tail := ChildLines(ts[1..], indent, c + 1) + rest;
    ChildLinesCons(ts, indent, c, rest);
    assert StripAll(ts) == [Strip(ts[0])] + StripAll(ts[1..]) && c + 1 + |ts[1..]| == c + |ts|;
    hide NodeLines, ChildLines, ReadNode, Strip, StripAll;
    ReadBack(ts[0], indent, tail);
    ReadChildrenBack(ts[1..], c + 1, indent, rest);
  }

  lemma ChildLinesCons(ts: seq<Node>, indent: nat, c: nat, rest: seq<Line>)
    requires ts != []
    ensures var lines := ChildLines(ts, indent, c) + rest;
            && lines != [] && lines[0] == Child(c)
            && lines[1..] == NodeLines(ts[0], indent) + (ChildLines(ts[1..], indent, c + 1) + rest)
  {
    hide NodeLines;
    Assoc4([Child(c)], NodeLines(ts[0], indent), ChildLines(ts[1..], indent, c + 1), rest);
  }

  /** So trees that differ in more than flags and padding have different listings. */
  lemma ListingDetermines(s: Node, t: Node)
    requires NodeLines(s, 0) == NodeLines(t, 0)
    ensures Strip(s) == Strip(t)
  {
    ReadBack(s, 0, []);
    ReadBack(t, 0, []);
  }
}
