/** compress_lzss against the brute-force greedy coder: equal except at one kind of position. */
module LzssBlindSpot {
  import opened Common
  import opened LzssFormat
  import opened LzssPacking
  import opened LzssWindow

  /** The unit a coder chooses that tries every distance. */
  ghost predicate BruteForce(src: seq<byte>, pos: nat, t: Token)
    requires pos <= |src|
  {
    if Longest(src, pos) > THRESHOLD then t.Pair? && t.length == Longest(src, pos) else t.Literal?
  }

  ghost predicate AllBruteForce(src: seq<byte>, pos: nat, toks: seq<Token>)
    requires Encodes(src, pos, toks)
    decreases toks
  {
    toks == [] || (BruteForce(src, pos, toks[0]) && AllBruteForce(src, pos + Span(toks[0]), toks[1..]))
  }

  /** How far the brute-force coder goes with its unit at pos. */
  ghost function Stride(src: seq<byte>, pos: nat): (n: nat)
    requires pos <= |src|
    ensures n >= 1
  {
    if Longest(src, pos) > THRESHOLD then Longest(src, pos) else 1
  }

  /** From pos on, the brute-force coder begins no unit in the blind spot. This is a matter of the text alone. */
  ghost predicate ClearFrom(src: seq<byte>, pos: nat)
    decreases |src| - pos
  {
    pos < |src| ==> !Blind(src, pos) && ClearFrom(src, pos + Stride(src, pos))
  }

  /** There is at most one blind position in a text: where F spaces come up first. */
  lemma OneBlindSpot(src: seq<byte>, a: nat, b: nat)
    requires Blind(src, a) && Blind(src, b)
    ensures a == b
  {
  }

  /** The brute-force coder that starts at pos begins a unit at q. */
  ghost predicate Reaches(src: seq<byte>, pos: nat, q: nat)
    decreases |src| - pos
  {
    pos == q || (pos < |src| && Reaches(src, pos + Stride(src, pos), q))
  }

  /** In other words: it never begins one at the blind position, if the text has one. */
  lemma {:induction false} ClearUnlessReached(src: seq<byte>, pos: nat)
    requires pos <= |src|
    ensures ClearFrom(src, pos) <==> forall q :: Blind(src, q) ==> !Reaches(src, pos, q)
    decreases |src| - pos
  {
    if pos < |src| {
      LongestIsMaximum(src, pos, REACH);
      ClearUnlessReached(src, pos + Stride(src, pos));
    }
  }

  /** The encoder's unit is the brute-force coder's, unless it begins in the blind spot. */
  lemma UnitIsStride(src: seq<byte>, pos: nat, t: Token)
    requires pos <= |src| && Right(src, pos, t) && Greedy(src, pos, t)
    ensures pos < |src|
    ensures BruteForce(src, pos, t) <==> !Blind(src, pos)
    ensures !Blind(src, pos) ==> Span(t) == Stride(src, pos)
  {
    BlindMisses(src, pos);
  }

  /** The output is that of the brute-force coder exactly if that coder begins no unit in the blind spot of the text. */
  lemma {:induction false} BruteForceUnlessBlind(src: seq<byte>, pos: nat, toks: seq<Token>)
    requires Encodes(src, pos, toks)
    ensures AllBruteForce(src, pos, toks) <==> ClearFrom(src, pos)
    decreases toks
  {
    if toks == [] { return; }
    var next := pos + Span(toks[0]);
    hide Greedy, Right, BruteForce, Stride, Blind;
    UnitIsStride(src, pos, toks[0]);
    BruteForceUnlessBlind(src, next, toks[1..]);
  }

  /** Texts of at most N - F bytes, texts that do not begin with a space, and texts that begin with F spaces. */
  lemma {:induction false} UsuallyBruteForce(src: seq<byte>, pos: nat, toks: seq<Token>)
    requires Encodes(src, pos, toks)
    requires |src| <= REACH || src[0] != SPACE || Run(src, 0)
    ensures AllBruteForce(src, pos, toks)
    decreases toks
  {
    if toks != [] {
      NoBlindSpot(src, pos);
      BlindMisses(src, pos);
      UsuallyBruteForce(src, pos + Span(toks[0]), toks[1..]);
    }
  }

  // ---- all encodings of a text have one size ----

  /** The same kinds of units in the same order. */
  ghost predicate SameKinds(a: seq<Token>, b: seq<Token>) {
    |a| == |b| && forall i :: 0 <= i < |a| ==> (a[i].Pair? <==> b[i].Pair?)
  }

  lemma {:induction false} EncodingsAreAlike(src: seq<byte>, pos: nat, a: seq<Token>, b: seq<Token>)
    requires Encodes(src, pos, a) && Encodes(src, pos, b)
    ensures SameKinds(a, b)
    decreases a
  {
    hide *;
    EndTogether(src, pos, a, b);
    if a == [] { return; }
    EncodesFirst(src, pos, a);
    EncodesFirst(src, pos, b);
    AlikeUnits(src, pos, a[0], b[0]);
    EncodingsAreAlike(src, pos + Span(a[0]), a[1..], b[1..]);
    AlikeCons(a, b);
  }

  lemma EndTogether(src: seq<byte>, pos: nat, a: seq<Token>, b: seq<Token>)
    requires Encodes(src, pos, a) && Encodes(src, pos, b)
    ensures a == [] <==> b == []
    ensures a == [] ==> SameKinds(a, b)
    ensures a != [] ==> pos < |src|
  {
  }

  lemma AlikeUnits(src: seq<byte>, pos: nat, s: Token, t: Token)
    requires Right(src, pos, s) && Right(src, pos, t) && pos <= |src| && Greedy(src, pos, s) && Greedy(src, pos, t)
    ensures Span(s) == Span(t) && (s.Pair? <==> t.Pair?)
  {
  }

  lemma AlikeCons(a: seq<Token>, b: seq<Token>)
    requires a != [] && b != [] && (a[0].Pair? <==> b[0].Pair?) && SameKinds(a[1..], b[1..])
    ensures SameKinds(a, b)
  {
    forall i | 0 <= i < |a| ensures a[i].Pair? <==> b[i].Pair? {
      if i > 0 { assert a[i] == a[1..][i - 1] && b[i] == b[1..][i - 1]; }
    }
  }

  lemma {:induction false} AlikeCodes(a: seq<Token>, b: seq<Token>)
    requires AllWellFormed(a) && AllWellFormed(b) && SameKinds(a, b)
    ensures |Codes(a)| == |Codes(b)|
  {
    if a != [] { AlikeCodes(a[1..], b[1..]); }
  }

  lemma {:induction false} AlikePack(a: seq<Token>, b: seq<Token>)
    requires AllWellFormed(a) && AllWellFormed(b) && SameKinds(a, b)
    ensures |Pack(a)| == |Pack(b)|
  {
    if |a| > 8 {
      AlikeCodes(a[..8], b[..8]);
      AlikePack(a[8..], b[8..]);
    } else if a != [] {
      AlikeCodes(a, b);
    }
  }

  /** So it is a matter of the text alone whether compress_lzss has a result, and how long it is. */
  lemma OneSize(src: seq<byte>, a: seq<Token>, b: seq<Token>)
    requires Encodes(src, 0, a) && Encodes(src, 0, b)
    ensures AllWellFormed(a) && AllWellFormed(b) && |Pack(a)| == |Pack(b)|
  {
    EncodesIsWellFormed(src, 0, a);
    EncodesIsWellFormed(src, 0, b);
    EncodingsAreAlike(src, 0, a, b);
    AlikePack(a, b);
  }

  // ---- the blind spot exists ----

  lemma PairRepeats(src: seq<byte>, pos: nat, t: Token, q: nat)
    requires Right(src, pos, t) && t.Pair? && pos < q <= pos + t.length
    ensures exists a :: a < q - 1 && At(src, a) == src[q - 1]
  {
    assert src[q - 1] == At(src, q - 1 - Dist(pos, t.position));
  }

  /** The first unit ends no later than the new byte. */
  lemma EndsBefore(src: seq<byte>, pos: nat, toks: seq<Token>, q: nat)
    requires Encodes(src, pos, toks) && pos < q <= |src|
    requires forall a :: a < q - 1 ==> At(src, a) != src[q - 1]
    ensures toks != [] && WellFormed(toks[0]) && pos + Span(toks[0]) <= q
    ensures Encodes(src, pos + Span(toks[0]), toks[1..])
  {
    var t := toks[0];
    if t.Pair? && pos + t.length > q - 1 { PairRepeats(src, pos, t, q); }
  }

  lemma NothingCovered(toks: seq<Token>)
    ensures AllWellFormed(toks[..0]) && Covered(toks[..0]) == 0 && toks[0..] == toks
  {
  }

  lemma CoveredCons(t: Token, toks: seq<Token>, j: nat)
    requires j < |toks| && t == toks[0] && WellFormed(t) && AllWellFormed(toks[1..][..j])
    ensures AllWellFormed(toks[..j + 1]) && Covered(toks[..j + 1]) == Span(t) + Covered(toks[1..][..j])
    ensures toks[1..][j..] == toks[j + 1..]
  {
    assert toks[..j + 1] == [t] + toks[1..][..j];
    assert toks[..j + 1][1..] == toks[1..][..j];
  }

  /** A byte that has not occurred before is never inside a pair, so a unit begins right behind it. */
  lemma {:induction false} UnitBehindNewByte(src: seq<byte>, pos: nat, toks: seq<Token>, q: nat) returns (i: nat)
    requires Encodes(src, pos, toks) && pos <= q <= |src|
    requires pos < q ==> forall a :: a < q - 1 ==> At(src, a) != src[q - 1]
    ensures i <= |toks| && AllWellFormed(toks[..i]) && pos + Covered(toks[..i]) == q
    ensures Encodes(src, q, toks[i..])
    decreases toks
  {
    hide *;
    if pos == q {
      NothingCovered(toks);
      return 0;
    }
    EndsBefore(src, pos, toks, q);
    var t := toks[0];
    var j := UnitBehindNewByte(src, pos + Span(t), toks[1..], q);
    i := j + 1;
    CoveredCons(t, toks, j);
  }

  /** A space, 4059 times a, b, and eighteen spaces. */
  function BlindText(): (s: seq<byte>)
    ensures |s| == 4079
    ensures s[0] == SPACE && s[4060] == 98
    ensures forall k :: 1 <= k < 4060 ==> s[k] == 97
    ensures forall k :: 4061 <= k < 4079 ==> s[k] == SPACE
  {
    [SPACE] + seq<byte>(4059, _ => 97) + [98] + seq<byte>(F, _ => SPACE)
  }

  lemma BlindAt4061()
    ensures Blind(BlindText(), 4061)
  {
    var src := BlindText();
    forall b | 0 <= b < 4061 ensures !Run(src, b) {
      if b == 0 { assert src[1] != SPACE; } else { assert src[b] != SPACE; }
    }
  }

  /** The byte at 4060 has not occurred before. */
  lemma NewByteAt4060()
    ensures forall a :: a < 4060 ==> At(BlindText(), a) != BlindText()[4060]
  {
  }

  /** A unit in the blind spot is a pair of F - 1 bytes. */
  lemma UnitAtBlind(src: seq<byte>, pos: nat, toks: seq<Token>)
    requires Encodes(src, pos, toks) && Blind(src, pos)
    ensures toks != [] && toks[0].Pair? && toks[0].length == F - 1 && Longest(src, pos) == F
  {
    BlindMisses(src, pos);
    assert Run(src, pos);
    hide Longest;
  }

  /** On this text, whatever the encoder does, the unit at 4061 is one byte shorter than the longest match. */
  lemma BlindSpotExists(toks: seq<Token>) returns (i: nat)
    requires Encodes(BlindText(), 0, toks)
    ensures i < |toks| && AllWellFormed(toks[..i]) && Covered(toks[..i]) == 4061
    ensures toks[i].Pair? && toks[i].length == F - 1 && Longest(BlindText(), 4061) == F
    ensures !AllBruteForce(BlindText(), 0, toks)
  {
    hide *;
    var src := BlindText();
    NewByteAt4060();
    i := UnitBehindNewByte(src, 0, toks, 4061);
    BlindAt4061();
    UnitAtBlind(src, 4061, toks[i..]);
    NotAllBruteForce(src, 0, toks, i);
  }

  lemma AllBruteForceIs(src: seq<byte>, pos: nat, toks: seq<Token>)
    requires Encodes(src, pos, toks) && toks != []
    ensures pos <= |src| && Right(src, pos, toks[0]) && Greedy(src, pos, toks[0]) && WellFormed(toks[0])
    ensures Encodes(src, pos + Span(toks[0]), toks[1..])
    ensures AllBruteForce(src, pos, toks) <==>
            BruteForce(src, pos, toks[0]) && AllBruteForce(src, pos + Span(toks[0]), toks[1..])
  {
  }

  lemma CoveredBut(toks: seq<Token>, i: nat)
    requires 0 < i <= |toks| && AllWellFormed(toks[..i])
    ensures WellFormed(toks[0]) && AllWellFormed(toks[1..][..i - 1])
    ensures Covered(toks[..i]) == Span(toks[0]) + Covered(toks[1..][..i - 1])
  {
    assert toks[..i][0] == toks[0] && toks[..i][1..] == toks[1..][..i - 1];
  }

  lemma {:induction false} NotAllBruteForce(src: seq<byte>, pos: nat, toks: seq<Token>, i: nat)
    requires Encodes(src, pos, toks) && i < |toks| && AllWellFormed(toks[..i])
    requires pos + Covered(toks[..i]) <= |src| && Blind(src, pos + Covered(toks[..i]))
    ensures !AllBruteForce(src, pos, toks)
    decreases toks
  {
    hide *;
    AllBruteForceIs(src, pos, toks);
    if i == 0 {
      NothingCovered(toks);
      UnitIsStride(src, pos, toks[0]);
    } else {
      CoveredBut(toks, i);
      NotAllBruteForce(src, pos + Span(toks[0]), toks[1..], i - 1);
    }
  }
}
