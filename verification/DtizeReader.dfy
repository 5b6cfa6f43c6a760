/** getDTNode of src/dtize.c: reading a device tree from a file. */
module DtizeReader {
  import opened Common
  import opened DeviceTree

  /** What is printed: the counts of a node, a property at some indentation, a heading for a child. */
  datatype Line =
    | Counts(props: nat, children: nat)
    | Property(indent: nat, name: seq<byte>, value: seq<byte>)
    | Child(number: nat)

  function PropLines(ps: seq<Prop>, indent: nat): seq<Line> {
    if ps == [] then [] else [Property(indent, ps[0].name, ps[0].value)] + PropLines(ps[1..], indent)
  }

  function NodeLines(t: Node, indent: nat): seq<Line>
    decreases t, 1
  {
    [Counts(|t.props|, |t.children|)] + PropLines(t.props, indent) + ChildLines(t.children, indent + 1, 0)
  }

  function ChildLines(ts: seq<Node>, indent: nat, c: nat): seq<Line>
    decreases ts, 0
  {
    if ts == [] then [] else [Child(c)] + NodeLines(ts[0], indent) + ChildLines(ts[1..], indent, c + 1)
  }

  // ---- how far the program reads, in whatever file ----

  /** What is left behind a read of n bytes; at the end of the file the read is short, and that goes unnoticed. */
  function Drop(s: seq<byte>, n: nat): seq<byte> {
    if n <= |s| then s[n..] else []
  }

  /** A buffer after a read of n bytes. */
  function ReadOver(s: seq<byte>, n: nat, was: seq<byte>): (now: seq<byte>)
    requires n <= |was|
    ensures |now| == |was|
  {
    var k := if |s| < n then |s| else n;
    s[..k] + was[k..]
  }

  /** A word after a read, when it held `was`: a short read stores fewer bytes, or none. */
  function WordOver(s: seq<byte>, was: Word32): Word32 {
    var k := if |s| < 4 then |s| else 4;
    Word(s[..k] + Le32(was)[k..])
  }

  /** Where a property ends and its length, which may stay in the buffer for the next one; or exit. */
  datatype Flow = Going(rest: seq<byte>, len: Word32) | Exit

  function PropFlow(s: seq<byte>, len: Word32): (f: Flow)
    ensures f.Going? ==> |f.rest| <= |s|
  {
    var s' := Drop(s, NAME_LEN);
    var n := WordOver(s', len) % FLAG_UNIT;
    if n > VALUE_LEN then Exit else Going(Drop(Drop(s', 4), Pad32(n)), n)
  }

  function PropsFlow(s: seq<byte>, n: nat, len: Word32): (f: Flow)
    ensures f.Going? ==> |f.rest| <= |s|
    decreases n
  {
    if n == 0 then Going(s, len)
    else match PropFlow(s, len)
      case Exit => Exit
      case Going(s', len') => PropsFlow(s', n - 1, len')
  }

  /** What getDTNode leaves of the file, or None when it exits. */
  function NodeFlow(s: seq<byte>): (rest: Option<seq<byte>>)
    ensures rest.Some? ==> |rest.value| <= |s|
    decreases |s|, 0
  {
    if s == [] then Some([])
    else match PropsFlow(Drop(s, 8), WordOver(s, 0), 0)
      case Exit => None
      case Going(s', _) => KidsFlow(s', WordOver(Drop(s, 4), 0))
  }

  function KidsFlow(s: seq<byte>, n: nat): (rest: Option<seq<byte>>)
    ensures rest.Some? ==> |rest.value| <= |s|
    decreases |s|, 1, n
  {
    if n == 0 then Some(s)
    else match NodeFlow(s)
      case None => None
      case Some(s') => KidsFlow(s', n - 1)
  }

  /** At the end of the file both counts are 0. */
  lemma WordsAtEnd()
    ensures WordOver([], 0) == 0
  {
  }

  /** A short read stores the bytes there are and leaves the others. */
  lemma ShortWord(s: seq<byte>, was: Word32, j: nat)
    requires j < 4
    ensures Le32(WordOver(s, was))[j] == if j < |s| then s[j] else Le32(was)[j]
  {
    var k := if |s| < 4 then |s| else 4;
    var bytes := s[..k] + Le32(was)[k..];
    Le32OfWord(bytes);
    assert bytes[4..] == [] && Le32(Word(bytes)) + [] == Le32(Word(bytes));
    hide Le32, Word;
  }

  lemma WholeWord(s: seq<byte>, was: Word32)
    requires |s| >= 4
    ensures WordOver(s, was) == Word(s)
  {
  }

  // ---- against the format ----

  lemma PropFlowIs(s: seq<byte>, len: Word32)
    ensures var n := WordOver(Drop(s, NAME_LEN), len) % FLAG_UNIT;
            PropFlow(s, len) == if n > VALUE_LEN then Exit else Going(Drop(Drop(Drop(s, NAME_LEN), 4), Pad32(n)), n)
  {
  }

  lemma PropsFlowIs(s: seq<byte>, n: nat, len: Word32)
    ensures PropsFlow(s, n, len) == if n == 0 then Going(s, len)
                                    else match PropFlow(s, len)
                                      case Exit => Exit
                                      case Going(s', len') => PropsFlow(s', n - 1, len')
  {
  }

  lemma PadFits(n: nat)
    requires n <= VALUE_LEN
    ensures n <= Pad32(n) <= VALUE_LEN
  {
  }

  /** Reading agrees with the format: on what is left if it is all there, on the exit, and at the end of the file. */
  ghost predicate PropsAgree<T>(parsed: Parsed<T>, flow: Flow) {
    match parsed
    case Ok(_, s) => flow.Going? && flow.rest == s
    case Excessive => flow == Exit
    case Short => flow == Exit || flow.rest == []
  }

  lemma PropFlowAgrees(s: seq<byte>, len: Word32)
    ensures PropsAgree(ParseProp(s), PropFlow(s, len))
    ensures ParseProp(s).Ok? ==> PropFlow(s, len).len == |ParseProp(s).value.value|
  {
    if |s| >= NAME_LEN + 4 {
      WholeWord(s[NAME_LEN..], len);
      assert Drop(Drop(s, NAME_LEN), 4) == s[NAME_LEN + 4..];
    }
  }

  lemma PropFlowAtEnd(len: Word32)
    ensures PropFlow([], len) == Exit || PropFlow([], len).rest == []
  {
  }

  lemma {:induction false} PropsFlowAtEnd(n: nat, len: Word32)
    ensures PropsFlow([], n, len) == Exit || PropsFlow([], n, len).rest == []
    decreases n
  {
    PropsFlowIs([], n, len);
    hide *;
    PropFlowAtEnd(len);
    if n > 0 && PropFlow([], len).Going? { PropsFlowAtEnd(n - 1, PropFlow([], len).len); }
  }

  lemma ParsePropsIs(s: seq<byte>, n: nat)
    requires n > 0
    ensures match ParseProp(s)
            case Excessive => ParseProps(s, n) == Excessive
            case Short => ParseProps(s, n) == Short
            case Ok(p, s') =>
              match ParseProps(s', n - 1)
              case Excessive => ParseProps(s, n) == Excessive
              case Short => ParseProps(s, n) == Short
              case Ok(ps, rest) => ParseProps(s, n) == Ok([p] + ps, rest)
  {
  }

  lemma NoPropsAgree(s: seq<byte>, len: Word32)
    ensures PropsAgree(ParseProps(s, 0), PropsFlow(s, 0, len))
  {
  }

  /** The first property and the others. */
  lemma PropsFlowStep(s: seq<byte>, n: nat, len: Word32)
    requires n > 0 && PropsAgree(ParseProp(s), PropFlow(s, len))
    requires ParseProp(s).Ok? ==>
               var s' := ParseProp(s).rest;
               PropsAgree(ParseProps(s', n - 1), PropsFlow(s', n - 1, PropFlow(s, len).len))
    ensures PropsAgree(ParseProps(s, n), PropsFlow(s, n, len))
  {
    hide ParseProp, ParseProps, PropFlow, PropsFlow;
    ParsePropsIs(s, n);
    PropsFlowIs(s, n, len);
    if PropFlow(s, len).Going? { PropsFlowAtEnd(n - 1, PropFlow(s, len).len); }
  }

  lemma {:induction false} PropsFlowAgrees(s: seq<byte>, n: nat, len: Word32)
    ensures PropsAgree(ParseProps(s, n), PropsFlow(s, n, len))
    decreases n
  {
    hide *;
    if n == 0 {
      NoPropsAgree(s, len);
      return;
    }
    PropFlowAgrees(s, len);
    FlowGoes(ParseProp(s), PropFlow(s, len));
    if ParseProp(s).Ok? { PropsFlowAgrees(ParseProp(s).rest, n - 1, PropFlow(s, len).len); }
    PropsFlowStep(s, n, len);
  }

  lemma FlowGoes<T>(parsed: Parsed<T>, flow: Flow)
    requires PropsAgree(parsed, flow)
    ensures parsed.Ok? ==> flow.Going?
  {
  }

  /** The two loops of a node; at the end of the file they have nothing to do. */
  lemma NodeFlowIs(s: seq<byte>)
    ensures NodeFlow(s) == match PropsFlow(Drop(s, 8), WordOver(s, 0), 0)
                           case Exit => None
                           case Going(s', _) => KidsFlow(s', WordOver(Drop(s, 4), 0))
    ensures Drop(Drop(s, 4), 4) == Drop(s, 8)
  {
    if s == [] { WordsAtEnd(); }
  }

  lemma KidsFlowIs(s: seq<byte>, n: nat)
    ensures KidsFlow(s, n) == if n == 0 then Some(s) else match NodeFlow(s)
                                                          case None => None
                                                          case Some(s') => KidsFlow(s', n - 1)
  {
  }

  lemma {:induction false} KidsFlowAtEnd(n: nat)
    ensures KidsFlow([], n) == Some([])
    decreases n
  {
    if n > 0 { KidsFlowAtEnd(n - 1); }
  }

  lemma NodeFlowUnfold(s: seq<byte>)
    requires |s| >= 8
    ensures NodeFlow(s) == match PropsFlow(s[8..], Word(s), 0)
                           case Exit => None
                           case Going(s', _) => KidsFlow(s', Word(s[4..]))
  {
    WholeWord(s, 0);
    WholeWord(s[4..], 0);
  }

  /** With fewer than eight bytes left there are no children to read, or none of them finds anything. */
  lemma NodeFlowShort(s: seq<byte>)
    requires |s| < 8
    ensures NodeFlow(s).None? || NodeFlow(s) == Some([])
  {
    if s != [] {
      assert Drop(s, 8) == [];
      PropsFlowAtEnd(WordOver(s, 0), 0);
      KidsFlowAtEnd(WordOver(Drop(s, 4), 0));
    }
  }

  /**
   * In a file that begins with a tree the program reads exactly that; it exits on an excessive length; and
   * with a file that is too short it reads to the end and returns as if nothing had happened, or exits.
   */
  ghost predicate Agrees<T>(parsed: Parsed<T>, rest: Option<seq<byte>>) {
    match parsed
    case Ok(_, s) => rest == Some(s)
    case Excessive => rest == None
    case Short => rest == None || rest == Some([])
  }

  lemma ParseNodeIs(s: seq<byte>)
    requires |s| >= 8
    ensures match ParseProps(s[8..], Word(s))
            case Excessive => ParseNode(s) == Excessive
            case Short => ParseNode(s) == Short
            case Ok(ps, s') =>
              match ParseNodes(s', Word(s[4..]))
              case Excessive => ParseNode(s) == Excessive
              case Short => ParseNode(s) == Short
              case Ok(ts, rest) => ParseNode(s) == Ok(Node(ps, ts), rest)
  {
  }

  lemma NodeFlowStep(s: seq<byte>)
    requires |s| >= 8
    requires var props := ParseProps(s[8..], Word(s));
             props.Ok? ==> Agrees(ParseNodes(props.rest, Word(s[4..])), KidsFlow(props.rest, Word(s[4..])))
    ensures Agrees(ParseNode(s), NodeFlow(s))
  {
    hide ParseProps, ParseNodes, ParseNode, PropsFlow, NodeFlow, KidsFlow, Word;
    ParseNodeIs(s);
    NodeFlowUnfold(s);
    PropsFlowAgrees(s[8..], Word(s), 0);
    KidsFlowAtEnd(Word(s[4..]));
  }

  lemma {:induction false} NodeFlowAgrees(s: seq<byte>)
    ensures Agrees(ParseNode(s), NodeFlow(s))
    decreases |s|, 0
  {
    if |s| < 8 {
      NodeFlowShort(s);
      return;
    }
    hide *;
    var props := ParseProps(s[8..], Word(s));
    if props.Ok? { KidsFlowAgrees(props.rest, Word(s[4..])); }
    NodeFlowStep(s);
  }

  /** The first child and the others. */
  lemma KidsFlowStep(s: seq<byte>, n: nat)
    requires n > 0 && Agrees(ParseNode(s), NodeFlow(s))
    requires ParseNode(s).Ok? ==> var s' := ParseNode(s).rest; Agrees(ParseNodes(s', n - 1), KidsFlow(s', n - 1))
    ensures Agrees(ParseNodes(s, n), KidsFlow(s, n))
  {
    if NodeFlow(s) == Some([]) { KidsFlowAtEnd(n - 1); }
  }

  lemma NoKidsAgree(s: seq<byte>)
    ensures Agrees(ParseNodes(s, 0), KidsFlow(s, 0))
  {
  }

  lemma {:induction false} KidsFlowAgrees(s: seq<byte>, n: nat)
    ensures Agrees(ParseNodes(s, n), KidsFlow(s, n))
    decreases |s|, 1, n
  {
    hide *;
    if n == 0 {
      NoKidsAgree(s);
      return;
    }
    NodeFlowAgrees(s);
    if ParseNode(s).Ok? { KidsFlowAgrees(ParseNode(s).rest, n - 1); }
    KidsFlowStep(s, n);
  }

  // ---- loops over what is still to be parsed ----

  /** If the whole list can be parsed, `done` has been, and `now` is the outcome for the rest. */
  ghost predicate Goes<T>(all: Parsed<seq<T>>, done: seq<T>, now: Parsed<seq<T>>) {
    all.Ok? ==> now.Ok? && all == Ok(done + now.value, now.rest)
  }

  lemma PropsGo(all: Parsed<seq<Prop>>, done: seq<Prop>, s: seq<byte>, n: nat)
    requires Goes(all, done, ParseProps(s, n)) && n > 0 && all.Ok?
    ensures var r := ParseProp(s); r.Ok? && Goes(all, done + [r.value], ParseProps(r.rest, n - 1))
  {
    var r := ParseProp(s);
    var q := ParseProps(r.rest, n - 1);
    assert done + ([r.value] + q.value) == done + [r.value] + q.value;
  }

  lemma NodesGo(all: Parsed<seq<Node>>, done: seq<Node>, s: seq<byte>, n: nat)
    requires Goes(all, done, ParseNodes(s, n)) && n > 0 && all.Ok?
    ensures var r := ParseNode(s); r.Ok? && Goes(all, done + [r.value], ParseNodes(r.rest, n - 1))
  {
    var r := ParseNode(s);
    var q := ParseNodes(r.rest, n - 1);
    assert done + ([r.value] + q.value) == done + [r.value] + q.value;
  }

  lemma GoesFirst<T>(all: Parsed<seq<T>>)
    ensures Goes(all, [], all)
  {
    if all.Ok? { assert [] + all.value == all.value; }
  }

  lemma GoesLast<T>(all: Parsed<seq<T>>, done: seq<T>, s: seq<byte>)
    requires Goes(all, done, Ok([], s))
    ensures all.Ok? ==> all == Ok(done, s)
  {
    assert done + [] == done;
  }

  lemma PropsLast(all: Parsed<seq<Prop>>, done: seq<Prop>, s: seq<byte>)
    requires Goes(all, done, ParseProps(s, 0))
    ensures all.Ok? ==> all == Ok(done, s)
  {
    GoesLast(all, done, s);
  }

  lemma NodesLast(all: Parsed<seq<Node>>, done: seq<Node>, s: seq<byte>)
    requires Goes(all, done, ParseNodes(s, 0))
    ensures all.Ok? ==> all == Ok(done, s)
  {
    GoesLast(all, done, s);
  }

  lemma GoesNot<T>(all: Parsed<seq<T>>, done: seq<T>, now: Parsed<seq<T>>)
    requires !all.Ok?
    ensures Goes(all, done, now)
  {
  }

  /** A node in two parts: its properties, then its children. */
  lemma NodeParts(s: seq<byte>, indent: nat)
    requires ParseNode(s).Ok?
    ensures |s| >= 8
    ensures var props := ParseProps(s[8..], Word(s));
            && props.Ok?
            && var kids := ParseNodes(props.rest, Word(s[4..]));
            && kids.Ok?
            && ParseNode(s) == Ok(Node(props.value, kids.value), kids.rest)
            && NodeLines(Node(props.value, kids.value), indent) ==
               [Counts(Word(s), Word(s[4..]))] + PropLines(props.value, indent) + ChildLines(kids.value, indent + 1, 0)
  {
  }

  lemma {:induction false} PropLinesAppend(ps: seq<Prop>, p: Prop, indent: nat)
    ensures PropLines(ps + [p], indent) == PropLines(ps, indent) + [Property(indent, p.name, p.value)]
  {
    if ps == [] {
      assert [] + [p] == [p] && [p][1..] == [];
    } else {
      assert (ps + [p])[0] == ps[0] && (ps + [p])[1..] == ps[1..] + [p];
      PropLinesAppend(ps[1..], p, indent);
    }
  }

  lemma {:induction false} ChildLinesAppend(ts: seq<Node>, t: Node, indent: nat, c: nat)
    ensures ChildLines(ts + [t], indent, c) == ChildLines(ts, indent, c) + ([Child(c + |ts|)] + NodeLines(t, indent))
    decreases ts
  {
    if ts == [] {
      assert [] + [t] == [t] && [t][1..] == [];
    } else {
      assert (ts + [t])[0] == ts[0] && (ts + [t])[1..] == ts[1..] + [t];
      ChildLinesAppend(ts[1..], t, indent, c + 1);
    }
  }

  lemma NoPropLines(lines: seq<Line>, indent: nat)
    ensures lines + PropLines([], indent) == lines
  {
  }

  lemma NoChildLines(lines: seq<Line>, indent: nat)
    ensures lines + ChildLines([], indent, 0) == lines
  {
  }

  /** What the buffers hold when the property is all there. */
  lemma PropBuffers(s: seq<byte>, len: Word32, n: nat, name: seq<byte>, value: seq<byte>)
    requires |name| == NAME_LEN && |value| == VALUE_LEN && n <= Pad32(n) <= VALUE_LEN
    requires PropFlow(s, len).Going? && PropFlow(s, len).len == n
    ensures var r := ParseProp(s);
            r.Ok? ==>
              && r.value.name == ReadOver(s, NAME_LEN, name)
              && r.value.value == ReadOver(Drop(Drop(s, NAME_LEN), 4), Pad32(n), value)[..n]
  {
    PropFlowAgrees(s, len);
    hide PropFlow, Pad32;
    if ParseProp(s).Ok? {
      assert Drop(Drop(s, NAME_LEN), 4) == s[NAME_LEN + 4..];
    }
  }

  // ---- the routine ----

  datatype Status = Done | Exited

  class Reader {
    const data: seq<byte>
    var pos: nat
    var indent: nat
    var out: seq<Line>

    constructor (data: seq<byte>)
      ensures this.data == data && pos == 0 && indent == 0 && out == []
    {
      this.data := data;
      pos, indent, out := 0, 0, [];
    }

    ghost function Rest(): seq<byte>
      reads this
      requires pos <= |data|
    {
      data[pos..]
    }

    /** A read call: up to n bytes go to the front of buf. */
    method Read(buf: array<byte>, n: nat)
      requires pos <= |data| && n <= buf.Length
      modifies this`pos, buf
      ensures pos <= |data| && Rest() == Drop(old(Rest()), n)
      ensures buf[..] == ReadOver(old(Rest()), n, old(buf[..]))
    {
      var k := if |data| - pos < n then |data| - pos else n;
      for i := 0 to k
        modifies buf
        invariant buf[..i] == data[pos..pos + i]
        invariant forall j :: i <= j < buf.Length ==> buf[j] == old(buf[j])
      {
        buf[i] := data[pos + i];
      }
      assert data[pos..pos + k] == Rest()[..k];
      assert buf[..] == buf[..k] + buf[k..] && buf[k..] == old(buf[k..]);
      pos := pos + k;
    }

    /** A read call into a word. */
    method ReadWord(was: Word32) returns (w: Word32)
      requires pos <= |data|
      modifies this`pos
      ensures pos <= |data| && Rest() == Drop(old(Rest()), 4)
      ensures w == WordOver(old(Rest()), was)
    {
      var k := if |data| - pos < 4 then |data| - pos else 4;
      assert Rest()[..k] == data[pos..pos + k];
      w := Word(data[pos..pos + k] + Le32(was)[k..]);
      pos := pos + k;
    }

    /** One property: name, length word, and the value with its padding. */
    method GetProp(name: array<byte>, len0: Word32, value: array<byte>) returns (status: Status, len: Word32)
      requires pos <= |data| && name.Length == NAME_LEN && value.Length == VALUE_LEN && name != value
      modifies this`pos, this`out, name, value
      ensures pos <= |data|
      ensures PropFlow(old(Rest()), len0) == if status == Done then Going(Rest(), len) else Exit
      ensures status == Exited ==> out == old(out)
      ensures status == Done ==>
                && name[..] == ReadOver(old(Rest()), NAME_LEN, old(name[..]))
                && len <= Pad32(len) <= VALUE_LEN
                && value[..] == ReadOver(Drop(Drop(old(Rest()), NAME_LEN), 4), Pad32(len), old(value[..]))
                && out == old(out) + [Property(indent, name[..], value[..len])]
      ensures var r := ParseProp(old(Rest()));
              r.Ok? ==> out == old(out) + [Property(indent, r.value.name, r.value.value)]
    {
      ghost var s, was := Rest(), value[..];
      PropFlowIs(s, len0);
      PropFlowAgrees(s, len0);
      hide PropFlow, ParseProp, WordOver, Pad32, Drop, ReadOver;
      Read(name, NAME_LEN);
      len := ReadWord(len0);
      len := len % FLAG_UNIT;
      if len > VALUE_LEN { return Exited, len; }
      PadFits(len);
      Read(value, Pad32(len));
      out := out + [Property(indent, name[..], value[..len])];
      status := Done;
      PropBuffers(s, len0, len, old(name[..]), was);
    }

    /** The first loop: all properties of a node. */
    method GetProps(n: nat) returns (status: Status)
      requires pos <= |data|
      modifies this`pos, this`out
      ensures pos <= |data|
      ensures var f := PropsFlow(old(Rest()), n, 0);
              if status == Done then f.Going? && f.rest == Rest() else f.Exit?
      ensures var r := ParseProps(old(Rest()), n); r.Ok? ==> out == old(out) + PropLines(r.value, indent)
    {
      hide Goes, ParseProps, ParseProp, PropLines, PropFlow, PropsFlow;
      ghost var s, all, lines := Rest(), ParseProps(Rest(), n), out;
      ghost var done: seq<Prop> := [];
      var name, value := new byte[NAME_LEN], new byte[VALUE_LEN];
      var len: Word32 := 0;
      PropsFlowAgrees(s, n, 0);
      GoesFirst(all);
      NoPropLines(lines, indent);
      var p := 0;
      while p < n
        modifies this`pos, this`out, name, value
        invariant p <= n && pos <= |data|
        invariant PropsFlow(s, n, 0) == PropsFlow(Rest(), n - p, len)
        invariant Goes(all, done, ParseProps(Rest(), n - p))
        invariant all.Ok? ==> out == lines + PropLines(done, indent)
      {
        ghost var now, r := Rest(), ParseProp(Rest());
        PropFlowAgrees(now, len);
        PropsFlowIs(now, n - p, len);
        if all.Ok? {
          PropsGo(all, done, now, n - p);
          PropLinesAppend(done, r.value, indent);
          done := done + [r.value];
        }
        status, len := GetProp(name, len, value);
        if status != Done { return; }
        p := p + 1;
        if !all.Ok? { GoesNot(all, done, ParseProps(Rest(), n - p)); }
      }
      PropsLast(all, done, Rest());
      PropsFlowIs(Rest(), 0, len);
      status := Done;
    }

    /** A node, its properties and its children. */
    method GetDTNode() returns (status: Status)
      requires pos <= |data|
      modifies this
      ensures pos <= |data|
      ensures NodeFlow(old(Rest())) == if status == Done then Some(Rest()) else None
      ensures status == Done ==> indent == old(indent)
      ensures var r := ParseNode(old(Rest())); r.Ok? ==> out == old(out) + NodeLines(r.value, old(indent))
      decreases |data| - pos, 1
    {
      hide NodeFlow, PropsFlow, KidsFlow, ParseNode, ParseNodes, ParseProps, NodeLines, PropLines, ChildLines;
      hide Word, WordOver;
      ghost var s, lines := Rest(), out;
      NodeFlowIs(s);
      NodeFlowAgrees(s);
      WordsAtEnd();
      if ParseNode(s).Ok? {
        NodeParts(s, indent);
        WholeWord(s, 0);
        WholeWord(s[4..], 0);
        PropsFlowAgrees(s[8..], Word(s), 0);
        ghost var props := ParseProps(s[8..], Word(s));
        ghost var counts, own := [Counts(Word(s), Word(s[4..]))], PropLines(props.value, indent);
        ghost var kids := ChildLines(ParseNodes(props.rest, Word(s[4..])).value, indent + 1, 0);
        Assoc4(lines, counts, own, kids);
        Assoc3(counts, own, kids);
      }
      var numProperties := ReadWord(0);
      var numChildren := ReadWord(0);
      out := out + [Counts(numProperties, numChildren)];
      status := GetProps(numProperties);
      if status != Done { return; }
      indent := indent + 1;
      status := GetChildren(numChildren);
      if status != Done { return; }
      indent := indent - 1;
    }

    /** One turn of the second loop. */
    method GetChild(c: nat) returns (status: Status)
      requires pos <= |data|
      modifies this
      ensures pos <= |data|
      ensures NodeFlow(old(Rest())) == if status == Done then Some(Rest()) else None
      ensures status == Done ==> indent == old(indent)
      ensures var r := ParseNode(old(Rest()));
              r.Ok? ==> out == old(out) + ([Child(c)] + NodeLines(r.value, old(indent)))
      decreases |data| - pos, 2
    {
      hide NodeFlow, ParseNode, NodeLines;
      out := out + [Child(c)];
      status := GetDTNode();
    }

    /** The second loop: all children of a node, one level further in. */
    method GetChildren(n: nat) returns (status: Status)
      requires pos <= |data|
      modifies this
      ensures pos <= |data|
      ensures KidsFlow(old(Rest()), n) == if status == Done then Some(Rest()) else None
      ensures status == Done ==> indent == old(indent)
      ensures var r := ParseNodes(old(Rest()), n); r.Ok? ==> out == old(out) + ChildLines(r.value, old(indent), 0)
      decreases |data| - pos, if n == 0 then 0 else 3
    {
      hide Goes, ParseNodes, ParseNode, ChildLines, NodeLines, NodeFlow, KidsFlow;
      ghost var s, all, lines := Rest(), ParseNodes(Rest(), n), out;
      ghost var done: seq<Node> := [];
      GoesFirst(all);
      NoChildLines(lines, indent);
      var c := 0;
      while c < n
        invariant c <= n && pos <= |data| && |Rest()| <= |s| && indent == old(indent)
        invariant KidsFlow(s, n) == KidsFlow(Rest(), n - c)
        invariant Goes(all, done, ParseNodes(Rest(), n - c))
        invariant all.Ok? ==> |done| == c && out == lines + ChildLines(done, indent, 0)
      {
        ghost var now, r := Rest(), ParseNode(Rest());
        NodeFlowAgrees(now);
        KidsFlowIs(now, n - c);
        if all.Ok? {
          NodesGo(all, done, now, n - c);
          ChildLinesAppend(done, r.value, indent, 0);
          Assoc3(lines, ChildLines(done, indent, 0), [Child(c)] + NodeLines(r.value, indent));
          done := done + [r.value];
        }
        status := GetChild(c);
        if status != Done { return; }
        c := c + 1;
        if !all.Ok? { GoesNot(all, done, ParseNodes(Rest(), n - c)); }
      }
      NodesLast(all, done, Rest());
      KidsFlowIs(Rest(), 0);
      status := Done;
    }
  }

  /** A file that begins with a serialised tree: the tree is printed, exactly its bytes are read, indent is restored. */
  method ReadTree(t: Node, tail: seq<byte>) returns (lines: seq<Line>, consumed: nat, indent: nat)
    requires WellFormedNode(t)
    ensures lines == NodeLines(t, 0) && consumed == |Ser(t)| && indent == 0
  {
    var f := new Reader(Ser(t) + tail);
    ParseSer(t, tail);
    assert f.Rest() == Ser(t) + tail;
    NodeFlowAgrees(f.Rest());
    var status := f.GetDTNode();
    lines, consumed, indent := f.out, f.pos, f.indent;
    assert |f.Rest()| == |tail|;
  }
}
