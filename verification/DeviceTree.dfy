/** The flattened device tree as bytes, which src/dtize.c and src/6-bonus.c both read. */
module DeviceTree {
  import opened Common
  import opened Bits

  const NAME_LEN := 32
  const VALUE_LEN := 8192
  const FLAG_UNIT := 0x1000_0000    // the flags are the top four bits of the length word

  /** A property; pad fills its value up to a multiple of four bytes. */
  datatype Prop = Prop(name: seq<byte>, flags: nat, value: seq<byte>, pad: seq<byte>)

  datatype Node = Node(props: seq<Prop>, children: seq<Node>)

  /** PAD32 */
  function Pad32(n: nat): (m: nat)
    ensures n <= m < n + 4 && m % 4 == 0
  {
    (n + 3) / 4 * 4
  }

  // ---- the format ----

  function Le32(n: nat): (s: seq<byte>)
    requires n < 0x1_0000_0000
    ensures |s| == 4
  {
    [n % 256, n / 0x100 % 256, n / 0x1_0000 % 256, n / 0x100_0000]
  }

  function Word(s: seq<byte>): (n: nat)
    requires |s| >= 4
    ensures n < 0x1_0000_0000
  {
    (s[0] as int) + 0x100 * (s[1] as int) + 0x1_0000 * (s[2] as int) + 0x100_0000 * (s[3] as int)
  }

  predicate WellFormedProp(p: Prop) {
    |p.name| == NAME_LEN && p.flags < 16 && |p.value| <= VALUE_LEN && |p.value| + |p.pad| == Pad32(|p.value|)
  }

  predicate WellFormedProps(ps: seq<Prop>) {
    ps == [] || (WellFormedProp(ps[0]) && WellFormedProps(ps[1..]))
  }

  predicate WellFormedNode(t: Node)
    decreases t, 1
  {
    && |t.props| < 0x1_0000_0000 && |t.children| < 0x1_0000_0000
    && WellFormedProps(t.props)
    && WellFormedAll(t.children)
  }

  predicate WellFormedAll(ts: seq<Node>)
    decreases ts, 0
  {
    ts == [] || (WellFormedNode(ts[0]) && WellFormedAll(ts[1..]))
  }

  function SerProp(p: Prop): (s: seq<byte>)
    requires WellFormedProp(p)
    ensures |s| == 36 + Pad32(|p.value|)
  {
    p.name + Le32(p.flags * FLAG_UNIT + |p.value|) + p.value + p.pad
  }

  function SerProps(ps: seq<Prop>): seq<byte>
    requires WellFormedProps(ps)
  {
    if ps == [] then [] else SerProp(ps[0]) + SerProps(ps[1..])
  }

  function Ser(t: Node): (s: seq<byte>)
    requires WellFormedNode(t)
    ensures |s| >= 8
    decreases t, 1
  {
    Le32(|t.props|) + Le32(|t.children|) + SerProps(t.props) + SerAll(t.children)
  }

  function SerAll(ts: seq<Node>): seq<byte>
    requires WellFormedAll(ts)
    decreases ts, 0
  {
    if ts == [] then [] else Ser(ts[0]) + SerAll(ts[1..])
  }

  lemma WordOfLe32(n: nat, t: seq<byte>)
    requires n < 0x1_0000_0000
    ensures Word(Le32(n) + t) == n && (Le32(n) + t)[4..] == t
  {
    var u := n / 0x100;
    var v := u / 0x100;
    assert n / 0x1_0000 == v && n / 0x100_0000 == v / 0x100;
    assert n == n % 0x100 + 0x100 * (u % 0x100 + 0x100 * (v % 0x100 + 0x100 * (v / 0x100)));
  }

  lemma Le32OfWord(s: seq<byte>)
    requires |s| >= 4
    ensures s == Le32(Word(s)) + s[4..]
  {
    var w := Word(s);
    var v := (s[2] as int) + 0x100 * (s[3] as int);
    var u := (s[1] as int) + 0x100 * v;
    assert w == s[0] + 0x100 * u;
    assert w / 0x100 == u && u / 0x100 == v && v / 0x100 == s[3];
    assert w / 0x1_0000 == v && w / 0x100_0000 == s[3];
  }

  /** The lowest byte comes first. */
  lemma WordBytes(s: seq<byte>)
    requires |s| >= 4
    ensures Word(s) % 0x100 == s[0] && Word(s) / 0x100 % 0x100 == s[1]
    ensures Word(s) / 0x1_0000 % 0x100 == s[2] && Word(s) / 0x100_0000 == s[3]
  {
    Le32OfWord(s);
    assert s[0] == Le32(Word(s))[0] && s[1] == Le32(Word(s))[1] && s[2] == Le32(Word(s))[2] && s[3] == Le32(Word(s))[3];
    hide Word;
  }

  /** The masks of the program: the flags are the top four bits of the length word, the length is the rest. */
  lemma FlagMask(w: Word32)
    ensures And(w, 0x0FFF_FFFF) == w % FLAG_UNIT
    ensures And(w, 0xF000_0000) == w / FLAG_UNIT * FLAG_UNIT
  {
    hide And, Shl, Shr, Low;
    Shl28(1);
    Shl28(15);
    AndMask(w, 28);
    HighAndLow(w, 28);
    Shl28(Shr(w, 28));
    AndHigh(w, 15, 28);
    Top(Shr(w, 28), Low(w, 28));
    Nibbles(Shr(w, 28));
    Shl28(And(Shr(w, 28), 15));
  }

  lemma Top(h: nat, low: nat)
    requires low < FLAG_UNIT && h * FLAG_UNIT + low < TWO32
    ensures h < 16 && (h * FLAG_UNIT + low) % FLAG_UNIT == low && (h * FLAG_UNIT + low) / FLAG_UNIT == h
  {
  }

  lemma Shl28(x: nat)
    ensures Shl(x, 28) == FLAG_UNIT * x
  {
    assert Shl(x, 4) == 16 * x;
    assert Shl(x, 12) == 0x1000 * x;
    assert Shl(x, 20) == 0x10_0000 * x;
  }

  /** One node with one property of two bytes. */
  lemma SmallTree(name: seq<byte>)
    requires |name| == 32
    ensures var t := Node([Prop(name, 0, [1, 2], [0, 0])], []);
            WellFormedNode(t) && Ser(t) == [1, 0, 0, 0, 0, 0, 0, 0] + name + [2, 0, 0, 0, 1, 2, 0, 0]
  {
    var p: Prop := Prop(name, 0, [1, 2], [0, 0]);
    assert WellFormedProps([p][1..]) && SerProps([p][1..]) == [];
    assert SerProp(p) == name + [2, 0, 0, 0] + [1, 2] + [0, 0];
    assert SerProps([p]) == SerProp(p) + [];
  }

  // ---- reading as getDTNode reads ----

  /** A value and what follows it; the program gives up on a length over 8192, and here also on a short file. */
  datatype Parsed<T> = Ok(value: T, rest: seq<byte>) | Excessive | Short

  function ParseProp(s: seq<byte>): (r: Parsed<Prop>)
    ensures r.Ok? ==> |r.rest| < |s|
  {
    if |s| < NAME_LEN + 4 then Short
    else
      var w := Word(s[NAME_LEN..]);
      var n := w % FLAG_UNIT;
      var s' := s[NAME_LEN + 4..];
      if n > VALUE_LEN then Excessive
      else if |s'| < Pad32(n) then Short
      else Ok(Prop(s[..NAME_LEN], w / FLAG_UNIT, s'[..n], s'[n..Pad32(n)]), s'[Pad32(n)..])
  }

  function ParseProps(s: seq<byte>, n: nat): (r: Parsed<seq<Prop>>)
    ensures r.Ok? ==> |r.rest| <= |s| && |r.value| == n
  {
    if n == 0 then Ok([], s)
    else match ParseProp(s)
      case Excessive => Excessive
      case Short => Short
      case Ok(p, s1) =>
        match ParseProps(s1, n - 1)
        case Excessive => Excessive
        case Short => Short
        case Ok(ps, s2) => Ok([p] + ps, s2)
  }

  function ParseNode(s: seq<byte>): (r: Parsed<Node>)
    ensures r.Ok? ==> |r.rest| < |s|
    decreases |s|, 0
  {
    if |s| < 8 then Short
    else match ParseProps(s[8..], Word(s))
      case Excessive => Excessive
      case Short => Short
      case Ok(ps, s1) =>
        match ParseNodes(s1, Word(s[4..]))
        case Excessive => Excessive
        case Short => Short
        case Ok(ts, s2) => Ok(Node(ps, ts), s2)
  }

  function ParseNodes(s: seq<byte>, n: nat): (r: Parsed<seq<Node>>)
    ensures r.Ok? ==> |r.rest| <= |s| && |r.value| == n
    decreases |s|, 1, n
  {
    if n == 0 then Ok([], s)
    else match ParseNode(s)
      case Excessive => Excessive
      case Short => Short
      case Ok(t, s1) =>
        match ParseNodes(s1, n - 1)
        case Excessive => Excessive
        case Short => Short
        case Ok(ts, s2) => Ok([t] + ts, s2)
  }

  lemma PropsStep(s: seq<byte>, n: nat, p: Prop, s1: seq<byte>, ps: seq<Prop>, s2: seq<byte>)
    requires n > 0 && ParseProp(s) == Ok(p, s1) && ParseProps(s1, n - 1) == Ok(ps, s2)
    ensures ParseProps(s, n) == Ok([p] + ps, s2)
  {
  }

  lemma NodesStep(s: seq<byte>, n: nat, t: Node, s1: seq<byte>, ts: seq<Node>, s2: seq<byte>)
    requires n > 0 && ParseNode(s) == Ok(t, s1) && ParseNodes(s1, n - 1) == Ok(ts, s2)
    ensures ParseNodes(s, n) == Ok([t] + ts, s2)
  {
  }

  lemma NodeStep(s: seq<byte>, ps: seq<Prop>, s1: seq<byte>, ts: seq<Node>, s2: seq<byte>)
    requires |s| >= 8 && ParseProps(s[8..], Word(s)) == Ok(ps, s1) && ParseNodes(s1, Word(s[4..])) == Ok(ts, s2)
    ensures ParseNode(s) == Ok(Node(ps, ts), s2)
  {
  }

  // ---- reading undoes writing, and the other way round ----

  /** The length word holds the flags and the length. */
  lemma LengthWord(flags: nat, n: nat)
    requires flags < 16 && n <= VALUE_LEN
    ensures var w := flags * FLAG_UNIT + n;
            w < 0x1_0000_0000 && w % FLAG_UNIT == n && w / FLAG_UNIT == flags
  {
  }

  /** What a property begins with. */
  lemma SerPropHead(p: Prop, rest: seq<byte>)
    requires WellFormedProp(p)
    ensures var s := SerProp(p) + rest;
            && |s| >= 36 + Pad32(|p.value|)
            && s[..NAME_LEN] == p.name && Word(s[NAME_LEN..]) == p.flags * FLAG_UNIT + |p.value|
            && s[NAME_LEN + 4..] == p.value + (p.pad + rest)
  {
    var w := p.flags * FLAG_UNIT + |p.value|;
    var s := SerProp(p) + rest;
    var body := p.value + (p.pad + rest);
    Assoc5(p.name, Le32(w), p.value, p.pad, rest);
    assert s == p.name + (Le32(w) + body);
    WordOfLe32(w, body);
    hide Le32, Word, Pad32;
    assert s[..NAME_LEN] == p.name && s[NAME_LEN..] == Le32(w) + body;
    assert s[NAME_LEN + 4..] == s[NAME_LEN..][4..] == body;
  }

  lemma ParseSerProp(p: Prop, rest: seq<byte>)
    requires WellFormedProp(p)
    ensures ParseProp(SerProp(p) + rest) == Ok(p, rest)
  {
    var n := |p.value|;
    var body := p.value + (p.pad + rest);
    LengthWord(p.flags, n);
    assert body[..n] == p.value && body[n..Pad32(n)] == p.pad && body[Pad32(n)..] == rest;
    hide SerProp, Word, Pad32;
    SerPropHead(p, rest);
  }

  lemma {:induction false} ParseSerProps(ps: seq<Prop>, rest: seq<byte>)
    requires WellFormedProps(ps)
    ensures ParseProps(SerProps(ps) + rest, |ps|) == Ok(ps, rest)
  {
    if ps == [] {
      assert SerProps(ps) + rest == rest;
    } else {
      var tail := SerProps(ps[1..]) + rest;
      assert [ps[0]] + ps[1..] == ps;
      SerPropsCons(ps[0], ps[1..], rest);
      ParseSerProp(ps[0], tail);
      ParseSerProps(ps[1..], rest);
      hide ParseProp, ParseProps, SerProp, SerProps, WellFormedProp;
      PropsStep(SerProp(ps[0]) + tail, |ps|, ps[0], tail, ps[1..], rest);
    }
  }

  /** A serialised tree is read back exactly, and nothing behind it is touched. */
  lemma {:induction false} ParseSer(t: Node, rest: seq<byte>)
    requires WellFormedNode(t)
    ensures ParseNode(Ser(t) + rest) == Ok(t, rest)
    decreases t, 1
  {
    var tail := SerAll(t.children) + rest;
    ParseSerProps(t.props, tail);
    ParseSerAll(t.children, rest);
    SerHead(t, rest);
    hide ParseProps, ParseNodes, SerAll, SerProps, Ser, Word;
    NodeStep(Ser(t) + rest, t.props, tail, t.children, rest);
  }

  lemma SerHead(t: Node, rest: seq<byte>)
    requires WellFormedNode(t)
    ensures var s := Ser(t) + rest;
            && Word(s) == |t.props| && Word(s[4..]) == |t.children|
            && s[8..] == SerProps(t.props) + (SerAll(t.children) + rest)
  {
    var a, b, c, d := Le32(|t.props|), Le32(|t.children|), SerProps(t.props), SerAll(t.children);
    var s := Ser(t) + rest;
    Assoc5(a, b, c, d, rest);
    WordOfLe32(|t.props|, b + (c + (d + rest)));
    WordOfLe32(|t.children|, c + (d + rest));
    assert s[8..] == s[4..][4..];
  }

  lemma {:induction false} ParseSerAll(ts: seq<Node>, rest: seq<byte>)
    requires WellFormedAll(ts)
    ensures ParseNodes(SerAll(ts) + rest, |ts|) == Ok(ts, rest)
    decreases ts, 0
  {
    if ts == [] {
      assert SerAll(ts) + rest == rest;
    } else {
      var tail := SerAll(ts[1..]) + rest;
      assert SerAll(ts) + rest == Ser(ts[0]) + tail;
      ParseSer(ts[0], tail);
      ParseSerAll(ts[1..], rest);
      hide ParseNode, ParseNodes, Ser, SerAll;
      NodesStep(Ser(ts[0]) + tail, |ts|, ts[0], tail, ts[1..], rest);
      assert [ts[0]] + ts[1..] == ts;
    }
  }

  lemma SerParseProp(s: seq<byte>)
    requires ParseProp(s).Ok?
    ensures var r := ParseProp(s); WellFormedProp(r.value) && s == SerProp(r.value) + r.rest
  {
    var (p, rest) := (ParseProp(s).value, ParseProp(s).rest);
    var w, s' := Word(s[NAME_LEN..]), s[NAME_LEN + 4..];
    assert w == p.flags * FLAG_UNIT + |p.value| && WellFormedProp(p);
    assert s == p.name + s[NAME_LEN..] && s' == p.value + p.pad + rest;
    assert |s| >= NAME_LEN + 4;
    hide Le32, Word, Pad32, ParseProp, WellFormedProp;
    Le32OfWord(s[NAME_LEN..]);
    assert s' == s[NAME_LEN..][4..];
    Assoc3(p.value, p.pad, rest);
    Assoc5(p.name, Le32(w), p.value, p.pad, rest);
  }

  lemma SerPropsCons(p: Prop, ps: seq<Prop>, rest: seq<byte>)
    requires WellFormedProp(p) && WellFormedProps(ps)
    ensures WellFormedProps([p] + ps)
    ensures SerProps([p] + ps) + rest == SerProp(p) + (SerProps(ps) + rest)
  {
    assert ([p] + ps)[1..] == ps;
    hide SerProp;
    assert SerProps([p] + ps) == SerProp(p) + SerProps(ps);
  }

  lemma {:induction false} SerParseProps(s: seq<byte>, n: nat)
    requires ParseProps(s, n).Ok?
    ensures var r := ParseProps(s, n); WellFormedProps(r.value) && s == SerProps(r.value) + r.rest
  {
    if n > 0 {
      SerParseProp(s);
      var (p, s1) := (ParseProp(s).value, ParseProp(s).rest);
      SerParseProps(s1, n - 1);
      var (ps, s2) := (ParseProps(s1, n - 1).value, ParseProps(s1, n - 1).rest);
      PropsStep(s, n, p, s1, ps, s2);
      hide ParseProp, ParseProps, SerProp, WellFormedProp;
      SerPropsCons(p, ps, s2);
    }
  }

  /** Whatever is read as a tree is the serialisation of that tree. */
  lemma {:induction false} SerParse(s: seq<byte>)
    requires ParseNode(s).Ok?
    ensures var r := ParseNode(s); WellFormedNode(r.value) && s == Ser(r.value) + r.rest
    decreases |s|, 0
  {
    SerParseProps(s[8..], Word(s));
    var (ps, s1) := (ParseProps(s[8..], Word(s)).value, ParseProps(s[8..], Word(s)).rest);
    SerParseNodes(s1, Word(s[4..]));
    var (ts, s2) := (ParseNodes(s1, Word(s[4..])).value, ParseNodes(s1, Word(s[4..])).rest);
    NodeStep(s, ps, s1, ts, s2);
    Le32OfWord(s);
    Le32OfWord(s[4..]);
    hide ParseProps, ParseNodes, ParseNode, Word, Le32, SerProps, SerAll, WellFormedProp;
    assert s[4..][4..] == s[8..];
    Assoc5(Le32(|ps|), Le32(|ts|), SerProps(ps), SerAll(ts), s2);
  }

  lemma {:induction false} SerParseNodes(s: seq<byte>, n: nat)
    requires ParseNodes(s, n).Ok?
    ensures var r := ParseNodes(s, n); WellFormedAll(r.value) && s == SerAll(r.value) + r.rest
    decreases |s|, 1, n
  {
    if n > 0 {
      SerParse(s);
      var (t, s1) := (ParseNode(s).value, ParseNode(s).rest);
      SerParseNodes(s1, n - 1);
      var (ts, s2) := (ParseNodes(s1, n - 1).value, ParseNodes(s1, n - 1).rest);
      NodesStep(s, n, t, s1, ts, s2);
      hide ParseNode, ParseNodes, Ser, WellFormedNode;
      assert ([t] + ts)[1..] == ts;
      assert Ser(t) + (SerAll(ts) + s2) == Ser(t) + SerAll(ts) + s2;
    }
  }
}
