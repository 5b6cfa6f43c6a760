/** Texts whose coding is known to the last byte: the constants, the byte format and the choice among equal matches. */
module LzssExamples {
  import opened Common
  import opened LzssFormat
  import opened LzssKeys
  import opened LzssTree
  import opened LzssForest
  import opened LzssPacking
  import opened LzssWindow
  import opened LzssCoder
  import opened Bits

  // ---- a run of spaces ----

  /** Strings of spaces lie in front of every text, so that a short run of spaces is one pair. */
  lemma SpacesAreOnePair(src: seq<byte>, toks: seq<Token>)
    requires 3 <= |src| <= 18 && forall i :: 0 <= i < |src| ==> src[i] == 32
    requires Encodes(src, 0, toks)
    ensures |toks| == 1 && toks[0].Pair? && toks[0].length == |src|
    ensures AllWellFormed(toks) && |Pack(toks)| == 3 && Pack(toks)[0] == 0 && Pack(toks)[2] % 16 == |src| - 3
  {
    var n := |src|;
    var x, y := Slice(src, -18, n), Slice(src, 0, n);
    assert forall k :: 0 <= k < n ==> x[k] == At(src, -18 + k) && y[k] == At(src, k);
    LcpAtLeast(x, y, n);
    LongestIs(src, 0, n);
    assert !Blind(src, 0);
    hide Longest;
    OneUnit(src, toks, n);
  }

  lemma OneUnit(src: seq<byte>, toks: seq<Token>, n: nat)
    requires Encodes(src, 0, toks) && Found(src, 0) == n == |src| && THRESHOLD < n
    ensures |toks| == 1 && toks[0].Pair? && toks[0].length == n
    ensures AllWellFormed(toks) && |Pack(toks)| == 3 && Pack(toks)[0] == 0 && Pack(toks)[2] % 16 == n - 3
  {
    assert |src| > 0;
    hide *;
    EncodesFirst(src, 0, toks);
    var t := toks[0];
    GreedyPair(src, 0, t);
    WholeSpan(t, n);
    NothingLeft(src, toks[1..]);
    Front(toks, t, []);
    OnePair(t);
  }

  lemma WholeSpan(t: Token, n: nat)
    requires WellFormed(t) && t.Pair? && t.length == n
    ensures 0 + Span(t) == n
  {
  }

  lemma OnePair(t: Token)
    requires WellFormed(t) && t.Pair?
    ensures [t] + [] == [t] && AllWellFormed([t])
    ensures |Pack([t])| == 3 && Pack([t])[0] == 0 && Pack([t])[2] % 16 == t.length - 3
  {
    assert [t] + [] == [t];
    Cons(t, []);
    hide Pack, Codes, Flags;
    PackIs([t]);
  }

  lemma GreedyPair(src: seq<byte>, pos: nat, t: Token)
    requires pos <= |src| && Greedy(src, pos, t) && Found(src, pos) > THRESHOLD
    ensures t.Pair? && t.length == Found(src, pos)
  {
  }

  lemma NothingLeft(src: seq<byte>, toks: seq<Token>)
    requires Encodes(src, |src|, toks)
    ensures toks == []
  {
    EncodesIsWellFormed(src, |src|, toks);
  }

  /** One unit in front of others, and its code and flag in front of theirs. */
  lemma Cons(t: Token, rest: seq<Token>)
    requires WellFormed(t) && AllWellFormed(rest)
    ensures AllWellFormed([t] + rest) && Codes([t] + rest) == Code(t) + Codes(rest)
    ensures Flags([t] + rest) == FlagBit(t) + 2 * Flags(rest) && Codes([]) == [] && Flags([]) == 0
  {
    assert ([t] + rest)[0] == t && ([t] + rest)[1..] == rest;
  }

  lemma PackIs(toks: seq<Token>)
    requires AllWellFormed(toks) && 0 < |toks| <= 8
    ensures Flags(toks) < 256 && Pack(toks) == [Flags(toks) as byte] + Codes(toks)
  {
    FlagsBound(toks);
    ShlMonotone(1, |toks|, 8);
    assert Shl(1, 8) == 256;
    hide Codes, Flags, Shl;
  }

  // ---- two equally long matches ----

  /** abcXabcYabcZ */
  function Abc(): (s: seq<byte>)
    ensures |s| == 12
  {
    [97, 98, 99, 88, 97, 98, 99, 89, 97, 98, 99, 90]
  }

  /** A byte that has not occurred is sent as it is. */
  lemma NewByte(src: seq<byte>, pos: nat, toks: seq<Token>)
    requires Encodes(src, pos, toks) && pos < |src| && forall a :: a < pos ==> At(src, a) != src[pos]
    ensures toks != [] && toks[0] == Literal(src[pos]) && Encodes(src, pos + 1, toks[1..])
  {
    assert At(src, -1) == SPACE;
    forall e | 1 <= e <= REACH ensures MatchAt(src, pos, e) == 0 {
      var n := Ahead(src, pos);
      assert Slice(src, pos - e, n)[0] == At(src, pos - e) && Slice(src, pos, n)[0] == src[pos];
    }
    LongestIs(src, pos, 0);
    hide Longest;
  }

  /** At 4 and 8 three bytes match. */
  lemma AbcFound(pos: nat)
    requires pos == 4 || pos == 8
    ensures Found(Abc(), pos) == 3
  {
    var src := Abc();
    forall e | 1 <= e <= REACH
      ensures MatchAt(src, pos, e) == if e == 4 || e == pos then 3 else 0
    {
      var n := Ahead(src, pos);
      var x, y := Slice(src, pos - e, n), Slice(src, pos, n);
      assert x[0] == At(src, pos - e) && y[0] == 97;
      if e == 4 || e == pos {
        assert x[1] == At(src, pos - e + 1) && x[2] == At(src, pos - e + 2) && x[3] == At(src, pos - e + 3);
        assert y[1] == 98 && y[2] == 99 && y[3] == src[pos + 3];
        LcpIsUnique(x, y, 3);
      }
    }
    assert MatchAt(src, pos, 4) == 3;
    LongestIs(src, pos, 3);
    hide Longest;
  }

  /** So there is a pair at 4 and at 8 that names position 0 or 4. */
  lemma AbcPair(pos: nat, toks: seq<Token>)
    requires (pos == 4 || pos == 8) && Encodes(Abc(), pos, toks)
    ensures toks != [] && toks[0].Pair? && toks[0].length == 3 && Encodes(Abc(), pos + 3, toks[1..])
    ensures toks[0].position == 4078 || (pos == 8 && toks[0].position == 4082)
  {
    hide *;
    AbcFound(pos);
    EncodesFirst(Abc(), pos, toks);
    var t := toks[0];
    AbcWorthAPair(pos);
    GreedyPair(Abc(), pos, t);
    RightPair(Abc(), pos, t);
    AbcRepeat(pos, Dist(pos, t.position));
    CellOfDist(pos, t.position);
    AbcCells();
    SpanOfPair(t);
  }

  lemma AbcWorthAPair(pos: nat)
    requires pos <= 12 && Found(Abc(), pos) == 3
    ensures Found(Abc(), pos) > THRESHOLD
  {
  }

  lemma SpanOfPair(t: Token)
    requires WellFormed(t) && t.Pair?
    ensures Span(t) == t.length
  {
  }

  lemma RightPair(src: seq<byte>, pos: nat, t: Token)
    requires Right(src, pos, t) && t.Pair?
    ensures pos < |src|
    ensures var d := Dist(pos, t.position); 1 <= d <= REACH && At(src, pos - d) == src[pos]
  {
  }

  lemma AbcRepeat(pos: nat, d: int)
    requires (pos == 4 || pos == 8) && d >= 1 && At(Abc(), pos - d) == Abc()[pos]
    ensures pos - d == 0 || (pos == 8 && pos - d == 4)
  {
  }

  lemma AbcCells()
    ensures CellOf(0) == 4078 && CellOf(4) == 4082
  {
  }

  // ---- the tree of the strings that begin with a ----

  lemma AbcKeys(text: Text)
    requires text == FirstRing(Abc())
    ensures forall i :: 0 <= i < 12 ==> text[4078 + i] == Abc()[i]
    ensures forall i :: 0 <= i < 4078 ==> text[i] == SPACE
    ensures Lcp(Key(text, 4082), Key(text, 4078)) == 3 && Key(text, 4082)[3] == 89 && Key(text, 4078)[3] == 88
    ensures Lcp(Key(text, 4086), Key(text, 4078)) == 3 && Key(text, 4086)[3] == 90
    ensures Lcp(Key(text, 4086), Key(text, 4082)) == 3
  {
    forall i | 0 <= i < 12 ensures text[4078 + i] == Abc()[i] {}
    hide FirstRing;
    AbcLcp(text, 4082, 4078);
    AbcLcp(text, 4086, 4078);
    AbcLcp(text, 4086, 4082);
  }

  lemma AbcLcp(text: Text, x: Cell, y: Cell)
    requires forall i :: 0 <= i < 12 ==> text[4078 + i] == Abc()[i]
    requires (x == 4082 && y == 4078) || (x == 4086 && (y == 4078 || y == 4082))
    ensures Lcp(Key(text, x), Key(text, y)) == 3
    ensures Key(text, x)[3] == text[x + 3] == Abc()[x - 4075] && Key(text, y)[3] == text[y + 3] == Abc()[y - 4075]
  {
    var a, b := Key(text, x), Key(text, y);
    assert forall i :: 0 <= i < 4 ==> a[i] == text[x + i] == Abc()[x - 4078 + i];
    assert forall i :: 0 <= i < 4 ==> b[i] == text[y + i] == Abc()[y - 4078 + i];
    LcpIsUnique(a, b, 3);
  }

  /** The strings at 0 and 4 in the tree, as far as they have been registered. */
  ghost predicate AbcTree(pos: nat, c: Coder) {
    && c.text == FirstRing(Abc())
    && c.ts[97] == if pos < 4 then Node(Leaf, 4078, Leaf) else Node(Leaf, 4078, Node(Leaf, 4082, Leaf))
  }

  lemma SpaceBefore(i: nat)
    requires 0 < i <= F
    ensures FirstRing(Abc())[N - F - i] == 32
  {
  }

  lemma RegisteredOther(c: Coder, r: Cell)
    requires c.text[r] != 97
    ensures Registered(c, r).text == c.text && Registered(c, r).ts[97] == c.ts[97]
  {
    hide SearchAt, InsertAt;
    OtherTree(c.ts, c.text, r, 97);
  }

  lemma PrecededIs(i: nat)
    requires i <= F
    ensures Preceded(Abc(), i) ==
            if i == 0 then Coder(NoTrees(), FirstRing(Abc()), Match(0, 0))
            else Registered(Preceded(Abc(), i - 1), N - F - i)
    ensures NoTrees()[97] == Leaf
  {
    hide Registered, FirstRing;
  }

  lemma {:induction false} AbcPreceded(i: nat)
    requires i <= F
    ensures Preceded(Abc(), i).text == FirstRing(Abc()) && Preceded(Abc(), i).ts[97] == Leaf
  {
    hide FirstRing, Preceded, Registered, Abc, NoTrees;
    PrecededIs(i);
    if i > 0 {
      AbcPreceded(i - 1);
      SpaceBefore(i);
      RegisteredOther(Preceded(Abc(), i - 1), N - F - i);
    }
  }

  lemma AbcBegun()
    ensures AbcTree(0, Begun(Abc()))
  {
    AbcPreceded(F);
    AbcKeys(FirstRing(Abc()));
    hide Preceded, FirstRing;
  }

  lemma AbcInsert(text: Text)
    requires text == FirstRing(Abc())
    ensures Insert(Node(Leaf, 4078, Leaf), text, 4082) == Node(Leaf, 4078, Node(Leaf, 4082, Leaf))
    ensures forall position :: Search(Node(Leaf, 4078, Node(Leaf, 4082, Leaf)), text, 4086, Match(0, position)) ==
                               Match(3, 4078)
  {
    AbcKeys(text);
    hide FirstRing, Lcp, Key;
    assert Insert(Leaf, text, 4082) == Node(Leaf, 4082, Leaf);
    forall position
      ensures Search(Node(Leaf, 4078, Node(Leaf, 4082, Leaf)), text, 4086, Match(0, position)) == Match(3, 4078)
    {
      assert Search(Leaf, text, 4086, Match(3, 4078)) == Match(3, 4078);
      assert Search(Node(Leaf, 4082, Leaf), text, 4086, Match(3, 4078)) == Match(3, 4078);
    }
  }

  /** Trees of other first bytes stay as they are. */
  lemma OtherTree(ts: Trees, text: Text, x: Cell, b: byte)
    requires text[x] != b
    ensures DeleteAt(ts, text, x)[b] == ts[b] && InsertAt(ts, text, x)[b] == ts[b]
  {
  }

  /** What sliding does to the tree of the strings that begin with a. */
  lemma AbcStep(pos: nat, c: Coder)
    requires pos < 8 && c.text == FirstRing(Abc())
    ensures var (c', r) := (Slid(Abc(), pos, c), 4079 + pos);
            && c'.text == c.text
            && c'.ts[97] == (if pos == 3 || pos == 7 then Insert(c.ts[97], c.text, r) else c.ts[97])
            && (pos == 7 ==> c'.m == Search(c.ts[97], c.text, r, Match(0, c.m.position)))
  {
    var s, r: Cell := pos, 4079 + pos;
    assert CellOf(pos + F) == s && CellOf(pos + 1) == r;
    assert c.text[s] == SPACE && c.text[r] == Abc()[pos + 1];
    hide FirstRing, Insert, Search, Delete, CellOf;
    OtherTree(c.ts, c.text, s, 97);
    if pos != 3 && pos != 7 { OtherTree(DeleteAt(c.ts, c.text, s), c.text, r, 97); }
  }

  /** Sliding touches this tree only at 4, and at 8 the search names the string at 0. */
  lemma AbcSlid(pos: nat, c: Coder)
    requires pos < 8 && AbcTree(pos, c)
    ensures pos < 7 ==> AbcTree(pos + 1, Slid(Abc(), pos, c))
    ensures pos == 7 ==> Slid(Abc(), pos, c).m == Match(3, 4078)
  {
    hide FirstRing, Insert, Search, Slid;
    AbcInsert(c.text);
    AbcStep(pos, c);
  }

  lemma AbcSlid3(pos: nat, c: Coder)
    requires pos < 5 && AbcTree(pos, c)
    ensures AbcTree(pos + 3, SlidBy(Abc(), pos, c, 3))
  {
    hide AbcTree, Slid;
    SlidByIs(Abc(), pos, c);
    AbcSlid(pos, c);
    AbcSlid(pos + 1, Slid(Abc(), pos, c));
    AbcSlid(pos + 2, Slid(Abc(), pos + 1, Slid(Abc(), pos, c)));
  }

  lemma SlidByIs(src: seq<byte>, pos: nat, c: Coder)
    ensures SlidBy(src, pos, c, 1) == Slid(src, pos, c)
    ensures SlidBy(src, pos, c, 3) == Slid(src, pos + 2, Slid(src, pos + 1, Slid(src, pos, c)))
  {
    assert SlidBy(src, pos, c, 0) == c;
    assert SlidBy(src, pos, c, 1) == Slid(src, pos, c);
    assert SlidBy(src, pos, c, 2) == Slid(src, pos + 1, SlidBy(src, pos, c, 1));
    assert SlidBy(src, pos, c, 3) == Slid(src, pos + 2, SlidBy(src, pos, c, 2));
  }

  /** One unit of the coding, in the coder's state. */
  ghost predicate AbcAt(pos: nat, c: Coder, toks: seq<Token>) {
    Encodes(Abc(), pos, toks) && Coded(Abc(), pos, c, toks) && AbcTree(pos, c)
  }

  lemma AbcLiteral(pos: nat, c: Coder, toks: seq<Token>) returns (c': Coder)
    requires pos in {0, 1, 2, 3} && AbcAt(pos, c, toks)
    ensures toks != [] && toks[0] == Literal(Abc()[pos]) && AbcAt(pos + 1, c', toks[1..])
  {
    hide AbcTree, Slid, SlidBy, Chosen, Encodes, Coded, Abc;
    AbcNew(pos);
    NewByte(Abc(), pos, toks);
    CodedFirst(Abc(), pos, c, toks);
    SlidByIs(Abc(), pos, c);
    AbcSlid(pos, c);
    c' := Slid(Abc(), pos, c);
  }

  lemma AbcNew(pos: nat)
    requires pos in {0, 1, 2, 3}
    ensures forall a :: a < pos ==> At(Abc(), a) != Abc()[pos]
  {
  }

  lemma Front(toks: seq<Token>, t: Token, rest: seq<Token>)
    requires toks != [] && toks[0] == t && toks[1..] == rest
    ensures toks == [t] + rest
  {
  }

  function AbcTail(i: nat): seq<Token>
    requires i <= 8
    decreases 8 - i
  {
    if i == 8 then []
    else
      [match i
       case 0 => Literal(97)
       case 1 => Literal(98)
       case 2 => Literal(99)
       case 3 => Literal(88)
       case 5 => Literal(89)
       case 7 => Literal(90)
       case _ => Pair(4078, 3)] + AbcTail(i + 1)
  }

  lemma AbcUnits11(toks: seq<Token>)
    requires Encodes(Abc(), 11, toks)
    ensures toks == AbcTail(7)
  {
    NewByte(Abc(), 11, toks);
    hide Encodes;
    NothingLeft(Abc(), toks[1..]);
    Front(toks, Literal(90), AbcTail(8));
  }

  lemma AbcUnits8(c: Coder, toks: seq<Token>)
    requires Encodes(Abc(), 8, toks) && Coded(Abc(), 8, c, toks) && c.m == Match(3, 4078)
    ensures toks == AbcTail(6)
  {
    hide SlidBy, Encodes;
    AbcPair(8, toks);
    assert Chosen(Abc(), 8, c, toks[0]);
    AbcUnits11(toks[1..]);
    Front(toks, Pair(4078, 3), AbcTail(7));
  }

  lemma AbcUnits7(c: Coder, toks: seq<Token>)
    requires AbcAt(7, c, toks)
    ensures toks == AbcTail(5)
  {
    hide AbcTree, Slid, SlidBy, Encodes;
    NewByte(Abc(), 7, toks);
    AbcSlid(7, c);
    SlidByIs(Abc(), 7, c);
    AbcUnits8(Slid(Abc(), 7, c), toks[1..]);
    Front(toks, Literal(89), AbcTail(6));
  }

  lemma AbcUnits4(c: Coder, toks: seq<Token>)
    requires AbcAt(4, c, toks)
    ensures toks == AbcTail(4)
  {
    hide AbcTree, Slid, SlidBy, Encodes;
    AbcPair(4, toks);
    AbcSlid3(4, c);
    AbcUnits7(SlidBy(Abc(), 4, c, 3), toks[1..]);
    Front(toks, Pair(4078, 3), AbcTail(5));
  }

  lemma {:induction false} AbcUnitsFrom(i: nat, c: Coder, toks: seq<Token>)
    requires i <= 4 && AbcAt(i, c, toks)
    ensures toks == AbcTail(i)
    decreases 4 - i
  {
    hide AbcAt, AbcTail, Abc;
    if i == 4 {
      AbcUnits4(c, toks);
      return;
    }
    AbcTailIs(i);
    var c' := AbcLiteral(i, c, toks);
    AbcUnitsFrom(i + 1, c', toks[1..]);
    Front(toks, Literal(Abc()[i]), AbcTail(i + 1));
  }

  lemma AbcTailIs(i: nat)
    requires i < 4
    ensures AbcTail(i) == [Literal(Abc()[i])] + AbcTail(i + 1)
  {
  }

  function AbcBytes(): (s: seq<byte>)
    ensures |s| == 10
  {
    [0x61, 0x62, 0x63, 0x58, 0xEE, 0xF0, 0x59, 0xEE, 0xF0, 0x5A]
  }

  function AbcOffset(i: nat): (k: nat)
    requires i <= 8
    ensures k <= 10
  {
    if i <= 4 then i else if i <= 6 then i + 1 else i + 2
  }

  lemma {:induction false} AbcCodes(i: nat)
    requires i <= 8
    ensures AllWellFormed(AbcTail(i)) && Codes(AbcTail(i)) == AbcBytes()[AbcOffset(i)..]
    ensures Flags(AbcTail(i)) == match i
                                 case 0 => 0xAF
                                 case 1 => 0x57
                                 case 2 => 0x2B
                                 case 3 => 0x15
                                 case 4 => 0x0A
                                 case 5 => 5
                                 case 6 => 2
                                 case 7 => 1
                                 case _ => 0
    decreases 8 - i
  {
    if i == 8 {
      AbcEnd();
      return;
    }
    hide *;
    AbcStepCode(i);
    AbcCodes(i + 1);
    var t := AbcTail(i)[0];
    Cons(t, AbcTail(i + 1));
    AbcFlag(i);
  }

  lemma AbcEnd()
    ensures AllWellFormed(AbcTail(8)) && Codes(AbcTail(8)) == [] == AbcBytes()[AbcOffset(8)..] && Flags(AbcTail(8)) == 0
  {
  }

  lemma AbcStepCode(i: nat)
    requires i < 8
    ensures AbcTail(i) != [] && AbcTail(i) == [AbcTail(i)[0]] + AbcTail(i + 1) && WellFormed(AbcTail(i)[0])
    ensures Code(AbcTail(i)[0]) + AbcBytes()[AbcOffset(i + 1)..] == AbcBytes()[AbcOffset(i)..]
  {
    AbcCode(i);
    var t := AbcTail(i)[0];
    assert AbcTail(i) == [t] + AbcTail(i + 1);
    hide Code, AbcTail, WellFormed, AbcBytes;
  }

  lemma AbcCode(i: nat)
    requires i < 8
    ensures AbcTail(i) != [] && WellFormed(AbcTail(i)[0])
    ensures Code(AbcTail(i)[0]) == AbcBytes()[AbcOffset(i)..AbcOffset(i + 1)]
  {
    var t, k := AbcTail(i)[0], AbcOffset(i);
    if i == 4 || i == 6 {
      assert t == Pair(4078, 3) && Code(t) == [0xEE, 0xF0];
      assert AbcBytes()[k] == 0xEE && AbcBytes()[k + 1] == 0xF0;
    } else {
      AbcLetter(i);
      assert Code(t) == [AbcBytes()[k]] == AbcBytes()[k..k + 1];
    }
  }

  lemma AbcLetter(i: nat)
    requires i < 8 && i != 4 && i != 6
    ensures AbcTail(i) != [] && AbcTail(i)[0] == Literal(AbcBytes()[AbcOffset(i)])
    ensures AbcOffset(i + 1) == AbcOffset(i) + 1
  {
  }

  lemma AbcFlag(i: nat)
    requires i < 8
    ensures AbcTail(i) != [] && FlagBit(AbcTail(i)[0]) == if i == 4 || i == 6 then 0 else 1
  {
  }

  lemma AbcWhole()
    ensures [0xAF as byte] + AbcBytes()[AbcOffset(0)..] ==
            [0xAF, 0x61, 0x62, 0x63, 0x58, 0xEE, 0xF0, 0x59, 0xEE, 0xF0, 0x5A]
    ensures 0 < |AbcTail(0)| <= 8
  {
    assert AbcTail(7) == [AbcTail(7)[0]] + AbcTail(8);
    assert |AbcTail(0)| == 4 + |AbcTail(4)| && |AbcTail(4)| == 4 + |AbcTail(8)|;
  }

  lemma AbcStart(toks: seq<Token>)
    requires Encodes(Abc(), 0, toks) && Coded(Abc(), 0, Begun(Abc()), toks)
    ensures AbcAt(0, Begun(Abc()), toks)
  {
    AbcBegun();
    hide Encodes, Coded, Begun, AbcTree;
  }

  /** What compress_lzss writes for abcXabcYabcZ. Both pairs name the first abc, at cell 0xFEE. */
  lemma AbcOutput(toks: seq<Token>)
    requires Encodes(Abc(), 0, toks) && Coded(Abc(), 0, Begun(Abc()), toks)
    ensures AllWellFormed(toks)
    ensures Pack(toks) == [0xAF, 0x61, 0x62, 0x63, 0x58, 0xEE, 0xF0, 0x59, 0xEE, 0xF0, 0x5A]
  {
    hide *;
    AbcWhole();
    AbcStart(toks);
    AbcUnitsFrom(0, Begun(Abc()), toks);
    AbcCodes(0);
    PackIs(AbcTail(0));
  }
}
