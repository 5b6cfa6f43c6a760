/** Tokens as bytes: groups of eight units behind a flag byte, and the reader that takes them apart. */
module LzssPacking {
  import opened Common
  import opened LzssFormat
  import opened Bits

  predicate AllWellFormed(toks: seq<Token>) {
    forall t <- toks :: WellFormed(t)
  }

  // ---- writing ----

  /** The one or two bytes of a unit; a pair keeps 12 bits of position and 4 bits of length. */
  function Code(t: Token): seq<byte>
    requires WellFormed(t)
  {
    match t
    case Literal(c) => [c]
    case Pair(position, length) => [position % 256, position / 256 * 16 + (length - (THRESHOLD + 1))]
  }

  function Codes(toks: seq<Token>): (s: seq<byte>)
    requires AllWellFormed(toks)
    ensures |toks| <= |s| <= 2 * |toks|
  {
    if toks == [] then [] else Code(toks[0]) + Codes(toks[1..])
  }

  function FlagBit(t: Token): nat { if t.Literal? then 1 else 0 }

  /** Bit i is set when unit i is a literal. */
  function Flags(toks: seq<Token>): nat {
    if toks == [] then 0 else FlagBit(toks[0]) + 2 * Flags(toks[1..])
  }

  lemma {:induction false} FlagsBound(toks: seq<Token>)
    ensures Flags(toks) < Shl(1, |toks|)
  {
    if toks != [] { FlagsBound(toks[1..]); }
  }

  function Group(toks: seq<Token>): (s: seq<byte>)
    requires AllWellFormed(toks) && |toks| <= 8
    ensures 1 + |toks| <= |s| <= 1 + 2 * |toks|
  {
    FlagsBound(toks);
    ShlMonotone(1, |toks|, 8);
    [Flags(toks)] + Codes(toks)
  }

  /** The whole output for a token sequence. */
  function Pack(toks: seq<Token>): seq<byte>
    requires AllWellFormed(toks)
  {
    if toks == [] then []
    else if |toks| <= 8 then Group(toks)
    else Group(toks[..8]) + Pack(toks[8..])
  }

  lemma {:induction false} CodesAppend(toks: seq<Token>, t: Token)
    requires AllWellFormed(toks) && WellFormed(t)
    ensures Codes(toks + [t]) == Codes(toks) + Code(t)
  {
    if toks != [] {
      assert (toks + [t])[1..] == toks[1..] + [t];
      CodesAppend(toks[1..], t);
    } else {
      assert Codes([t]) == Code(t) + Codes([]);
    }
  }

  lemma {:induction false} FlagsAppend(toks: seq<Token>, t: Token)
    ensures Flags(toks + [t]) == Flags(toks) + FlagBit(t) * Shl(1, |toks|)
  {
    if toks != [] {
      assert (toks + [t])[1..] == toks[1..] + [t];
      FlagsAppend(toks[1..], t);
    } else {
      assert Flags([t]) == FlagBit(t) + 2 * Flags([]);
    }
  }

  lemma PackUnfold(toks: seq<Token>)
    requires AllWellFormed(toks) && |toks| >= 8
    ensures Pack(toks) == Group(toks[..8]) + Pack(toks[8..])
  {
    if |toks| == 8 {
      assert toks[..8] == toks && toks[8..] == [];
      assert Group(toks) + [] == Group(toks);
    }
  }

  /** Full groups may be sent before the rest is known. */
  lemma {:induction false} PackAppend(done: seq<Token>, rest: seq<Token>)
    requires AllWellFormed(done) && AllWellFormed(rest) && |done| % 8 == 0
    ensures AllWellFormed(done + rest)
    ensures Pack(done + rest) == Pack(done) + Pack(rest)
    decreases |done|
  {
    if done == [] {
      assert done + rest == rest && Pack(done) == [];
    } else {
      var group, more := done[..8], done[8..];
      var all := done + rest;
      assert all[..8] == group && all[8..] == more + rest;
      PackUnfold(done);
      PackUnfold(all);
      PackAppend(more, rest);
      Assoc3(Group(group), Pack(more), Pack(rest));
    }
  }

  // ---- size ----

  function Covered(toks: seq<Token>): nat
    requires AllWellFormed(toks)
  {
    if toks == [] then 0 else Span(toks[0]) + Covered(toks[1..])
  }

  lemma {:induction false} CodesSize(toks: seq<Token>)
    requires AllWellFormed(toks)
    ensures |toks| <= Covered(toks) && |Codes(toks)| <= Covered(toks)
    ensures (forall t <- toks :: t.Literal?) ==> |toks| == |Codes(toks)| == Covered(toks)
  {
    if toks != [] {
      assert WellFormed(toks[0]);
      CodesSize(toks[1..]);
      if forall t <- toks :: t.Literal? { assert toks[0].Literal?; }
    }
  }

  lemma {:induction false} CoveredSplit(a: seq<Token>, b: seq<Token>)
    requires AllWellFormed(a) && AllWellFormed(b)
    ensures AllWellFormed(a + b) && Covered(a + b) == Covered(a) + Covered(b)
  {
    if a == [] {
      assert a + b == b;
    } else {
      assert (a + b)[1..] == a[1..] + b;
      CoveredSplit(a[1..], b);
    }
  }

  lemma {:induction false} PackSize(toks: seq<Token>)
    requires AllWellFormed(toks)
    ensures |Pack(toks)| <= Covered(toks) + (|toks| + 7) / 8
    ensures (forall t <- toks :: t.Literal?) ==> |Pack(toks)| == Covered(toks) + (|toks| + 7) / 8
  {
    if toks == [] {
    } else if |toks| <= 8 {
      CodesSize(toks);
    } else {
      CodesSize(toks[..8]);
      PackSize(toks[8..]);
      CoveredSplit(toks[..8], toks[8..]);
      assert toks == toks[..8] + toks[8..];
    }
  }

  /** n text bytes never take more than n + ceil(n/8), and they take that much when nothing repeats. */
  lemma ExpansionBound(toks: seq<Token>)
    requires AllWellFormed(toks)
    ensures var n := Covered(toks);
            && |Pack(toks)| <= n + (n + 7) / 8
            && ((forall t <- toks :: t.Literal?) ==> |Pack(toks)| == n + (n + 7) / 8)
  {
    PackSize(toks);
    CodesSize(toks);
  }

  // ---- reading ----

  /** The pair that two bytes stand for. */
  function PairOf(lo: byte, hi: byte): Token {
    Pair(lo + hi / 16 * 256, hi % 16 + THRESHOLD + 1)
  }

  /** The tokens that the reader takes from s when its flag register holds `flags`. */
  function Parse(s: seq<byte>, flags: nat): (toks: seq<Token>)
    ensures AllWellFormed(toks)
    decreases |s|, 1
  {
    var f := flags / 2;
    if f / 256 % 2 == 0 then
      if s == [] then [] else ParseUnit(s[1..], (s[0] as int) + 0xFF00)
    else ParseUnit(s, f)
  }

  /** One unit, told apart by bit 0 of the register; a cut-off unit ends the text. */
  function ParseUnit(s: seq<byte>, f: nat): (toks: seq<Token>)
    ensures AllWellFormed(toks)
    decreases |s|, 0
  {
    if f % 2 == 1 then
      if s == [] then [] else [Literal(s[0])] + Parse(s[1..], f)
    else
      if |s| < 2 then [] else [PairOf(s[0], s[1])] + Parse(s[2..], f)
  }

  lemma PairOfCode(t: Token)
    requires WellFormed(t) && t.Pair?
    ensures PairOf(Code(t)[0], Code(t)[1]) == t
  {
    assert (t.position / 256 * 16 + (t.length - 3)) / 16 == t.position / 256;
  }

  /** The sentinel after k units of a group: the ones of 0xFF00 that are left. */
  function Sentinel(k: nat): nat
    requires k <= 8
  {
    Shr(0xFF00, k)
  }

  /** Bit 8 of the register survives seven shifts and is gone with the eighth. */
  lemma SentinelBit(k: nat, x: nat)
    requires k <= 8 && x < Shl(1, 8 - k)
    ensures (Sentinel(k) + x) / 256 % 2 == if k < 8 then 1 else 0
    ensures k < 8 ==> Sentinel(k) % 2 == 0 && Sentinel(k + 1) == Sentinel(k) / 2
  {
    assert Sentinel(0) == 0xFF00 && Sentinel(1) == 0x7F80 && Sentinel(2) == 0x3FC0;
    assert Sentinel(3) == 0x1FE0 && Sentinel(4) == 0x0FF0 && Sentinel(5) == 0x07F8;
    assert Sentinel(6) == 0x03FC && Sentinel(7) == 0x01FE && Sentinel(8) == 0x00FF;
    assert Shl(1, 8) == 256 && Shl(1, 7) == 128 && Shl(1, 6) == 64 && Shl(1, 5) == 32;
    assert Shl(1, 4) == 16 && Shl(1, 3) == 8 && Shl(1, 2) == 4 && Shl(1, 1) == 2 && Shl(1, 0) == 1;
  }

  /** The register in the middle of a group: k units are done and `rest` are to come. */
  ghost predicate Register(k: nat, rest: seq<Token>, f: nat) {
    k + |rest| <= 8 && f == Sentinel(k) + Flags(rest)
  }

  /** The register tells the next unit's kind, and one shift moves it to the unit after. */
  lemma RegisterStep(k: nat, rest: seq<Token>, f: nat)
    requires Register(k, rest, f)
    ensures f / 256 % 2 == if k < 8 then 1 else 0
    ensures k < 8 && rest != [] ==> f % 2 == FlagBit(rest[0]) && Register(k + 1, rest[1..], f / 2)
    ensures k < 8 && rest == [] ==> f % 2 == 0
  {
    FlagsBound(rest);
    ShlMonotone(1, |rest|, 8 - k);
    SentinelBit(k, Flags(rest));
  }

  lemma ParseUnitCode(t: Token, s: seq<byte>, f: nat)
    requires WellFormed(t) && f % 2 == FlagBit(t)
    ensures ParseUnit(Code(t) + s, f) == [t] + Parse(s, f)
  {
    if t.Pair? { PairOfCode(t); }
    assert (Code(t) + s)[|Code(t)|..] == s;
  }

  /** Bit 8 of the shifted register decides whether a new flag byte is due. */
  lemma ParseBit8(s: seq<byte>, f: nat)
    ensures f / 2 / 256 % 2 == 1 ==> Parse(s, f) == ParseUnit(s, f / 2)
    ensures f / 2 / 256 % 2 == 0 ==> Parse(s, f) == Parse(s, 0)
  {
  }

  /** Reading unit k of a group leads to unit k + 1, or past the end of the group. */
  lemma ParseUnitsStep(k: nat, rest: seq<Token>, tail: seq<byte>, f: nat)
    requires AllWellFormed(rest) && rest != [] && k < 8 && Register(k, rest, f)
    ensures Register(k + 1, rest[1..], f / 2)
    ensures var s := Codes(rest[1..]) + tail;
            ParseUnit(Codes(rest) + tail, f) == [rest[0]] + (if k < 7 then ParseUnit(s, f / 2) else Parse(s, 0))
  {
    var t, u := rest[0], rest[1..];
    RegisterStep(k, rest, f);
    RegisterStep(k + 1, u, f / 2);
    assert Codes(rest) + tail == Code(t) + (Codes(u) + tail);
    ParseUnitCode(t, Codes(u) + tail, f);
    ParseBit8(Codes(u) + tail, f);
  }

  /** What is read behind unit n of a group: the next group if this one is full. */
  ghost function Behind(n: nat, tail: seq<byte>): seq<Token> {
    if n == 8 then Parse(tail, 0) else []
  }

  lemma ConsAppend(rest: seq<Token>, after: seq<Token>)
    requires rest != []
    ensures [rest[0]] + (rest[1..] + after) == rest + after
  {
  }

  /** The rest of a group and, when it is full, what follows it. */
  lemma {:induction false} ParseUnits(k: nat, rest: seq<Token>, tail: seq<byte>, f: nat)
    requires AllWellFormed(rest) && k < 8 && Register(k, rest, f)
    requires k + |rest| < 8 ==> tail == []
    ensures ParseUnit(Codes(rest) + tail, f) == rest + Behind(k + |rest|, tail)
    decreases rest
  {
    if rest == [] {
      RegisterStep(k, rest, f);
      assert Codes(rest) + tail == [];
      assert ParseUnit([], f) == [];
    } else {
      var u := rest[1..];
      ParseUnitsStep(k, rest, tail, f);
      ConsAppend(rest, Behind(k + |rest|, tail));
      if k < 7 {
        hide Parse, ParseUnit, Behind, Register, Codes;
        ParseUnits(k + 1, u, tail, f / 2);
      } else {
        assert Codes(u) + tail == tail && u + Parse(tail, 0) == Parse(tail, 0);
      }
    }
  }

  /** One group in front of what follows it. */
  lemma ParseGroup(toks: seq<Token>, tail: seq<byte>)
    requires AllWellFormed(toks) && 0 < |toks| <= 8 && (|toks| < 8 ==> tail == [])
    ensures Parse(Group(toks) + tail, 0) == toks + (if |toks| == 8 then Parse(tail, 0) else [])
  {
    var s := Group(toks) + tail;
    assert Shr(0xFF00, 0) == 0xFF00;
    assert s[1..] == Codes(toks) + tail;
    ParseUnits(0, toks, tail, Flags(toks) + 0xFF00);
  }

  /** Reading undoes writing, for every token sequence, full groups or not. */
  lemma {:induction false} ParsePack(toks: seq<Token>)
    requires AllWellFormed(toks)
    ensures Parse(Pack(toks), 0) == toks
  {
    if toks == [] {
    } else if |toks| <= 8 {
      ParseGroup(toks, []);
      assert Group(toks) + [] == Group(toks);
    } else {
      ParseGroup(toks[..8], Pack(toks[8..]));
      ParsePack(toks[8..]);
      assert toks[..8] + toks[8..] == toks;
    }
  }

  /** Input that ends early gives the first units, as many as are complete. */
  lemma {:induction false} ParsePrefix(s: seq<byte>, k: nat, flags: nat)
    requires k <= |s|
    ensures Parse(s[..k], flags) <= Parse(s, flags)
    decreases |s|, 1
  {
    var f := flags / 2;
    if f / 256 % 2 != 0 {
      ParseUnitPrefix(s, k, f);
    } else if k > 0 {
      assert s[..k][1..] == s[1..][..k - 1];
      ParseUnitPrefix(s[1..], k - 1, (s[0] as int) + 0xFF00);
    }
  }

  lemma {:induction false} ParseUnitPrefix(s: seq<byte>, k: nat, f: nat)
    requires k <= |s|
    ensures ParseUnit(s[..k], f) <= ParseUnit(s, f)
    decreases |s|, 0
  {
    var n := if f % 2 == 1 then 1 else 2;
    if k >= n {
      assert s[..k][n..] == s[n..][..k - n];
      ParsePrefix(s[n..], k - n, f);
    }
  }

  // ---- the layout of the output ----

  /** A pair has the low eight bits of its position in its first byte, the high four above the length in the second. */
  lemma PairLayout(t: Token)
    requires WellFormed(t) && t.Pair?
    ensures |Code(t)| == 2
    ensures var lo: int, hi: int := Code(t)[0], Code(t)[1];
            lo + 256 * (hi / 16) == t.position && hi % 16 == t.length - 3
  {
  }

  /** Unit i is a literal exactly if bit i of the flag byte is set. */
  lemma {:induction false} FlagsLayout(toks: seq<Token>, i: nat)
    requires i < |toks|
    ensures Shr(Flags(toks), i) % 2 == 1 <==> toks[i].Literal?
  {
    if i > 0 {
      assert Flags(toks) / 2 == Flags(toks[1..]);
      FlagsLayout(toks[1..], i - 1);
    }
  }

  /** The codes follow the flag byte, each behind those of the units before it. */
  lemma {:induction false} CodesLayout(toks: seq<Token>, i: nat)
    requires AllWellFormed(toks) && i < |toks|
    ensures var k, n := |Codes(toks[..i])|, |Code(toks[i])|;
            k + n <= |Codes(toks)| && Codes(toks)[k..][..n] == Code(toks[i])
  {
    if i > 0 {
      assert toks[..i][0] == toks[0] && toks[..i][1..] == toks[1..][..i - 1];
      CodesLayout(toks[1..], i - 1);
      var k, n := |Codes(toks[1..][..i - 1])|, |Code(toks[0])|;
      assert Codes(toks)[n..] == Codes(toks[1..]);
      assert Codes(toks)[n + k..] == Codes(toks)[n..][k..];
    }
  }

  // ---- the bit operators of the reader and the writer ----

  /** The tests and merges that decompress_lzss makes on its flag register and on the bytes of a pair. */
  lemma ReaderBits(f: nat, c: byte, lo: byte, hi: byte)
    ensures Shr(f, 1) == f / 2
    ensures And(f, 0x100) == 0 <==> f / 256 % 2 == 0
    ensures And(f, 1) == f % 2
    ensures Or(c, 0xFF00) == c + 0xFF00
    ensures Or(lo, Shl(And(hi, 0xF0), 4)) == PairOf(lo, hi).position
    ensures And(hi, 0x0F) + THRESHOLD + 1 == PairOf(lo, hi).length
  {
    AndMask(f, 1);
    AndMask(Shr(f, 8), 1);
    AndHigh(f, 1, 8);
    assert Shl(1, 8) == 0x100 && Shr(f, 8) == f / 256 && Shl(0, 8) == 0;
    OrDisjoint(c, 0xFF, 8);
    assert Shl(0xFF, 8) == 0xFF00;
    PairBits(lo, hi);
    Nibbles(hi);
  }

  lemma HighNibble(x: nat)
    requires x < 256
    ensures And(x, 0xF0) == x / 16 * 16
  {
    hide And, Shl, Shr;
    Nibbles(x);
    Nibbles(x / 16);
    AndHigh(x, 15, 4);
    Shl4(15);
    Shl4(x / 16);
  }

  lemma PairBits(lo: byte, hi: byte)
    ensures Or(lo, Shl(And(hi, 0xF0), 4)) == lo + hi / 16 * 256
  {
    HighNibble(hi);
    var h := hi / 16;
    OrDisjoint(lo, h, 8);
    assert Shl(1, 8) == 256 && Shl(h, 8) == h * 256 && Shl(h * 16, 4) == h * 256;
  }

  /** The two bytes of a pair as compress_lzss computes them. */
  lemma WriterBits(t: Token)
    requires WellFormed(t) && t.Pair?
    ensures Code(t) == [t.position % 256, Or(And(Shr(t.position, 4), 0xF0), t.length - (THRESHOLD + 1))]
  {
    hide And, Or, Shl, Shr;
    Nibbles(t.position);
    HighNibble(t.position / 16);
    var h := t.position / 16 / 16;
    assert h == t.position / 256;
    Shl4(1);
    Shl4(h);
    OrDisjoint(t.length - 3, h, 4);
  }

  /** Setting a flag: bit |toks| of the flag byte is still clear. */
  lemma FlagBits(toks: seq<Token>, t: Token)
    ensures Or(Flags(toks), Shl(1, |toks|)) == Flags(toks) + Shl(1, |toks|)
    ensures Flags(toks + [t]) == if t.Literal? then Or(Flags(toks), Shl(1, |toks|)) else Flags(toks)
  {
    FlagsBound(toks);
    OrDisjoint(Flags(toks), 1, |toks|);
    FlagsAppend(toks, t);
  }
}
