/** Text positions and ring cells; what an encoding of a text is, with no ring in sight. */
module LzssWindow {
  import opened Common
  import opened LzssFormat
  import opened LzssKeys
  import opened LzssPacking

  /** The furthest a pair may point back. */
  const REACH := N - F

  /** The text, preceded by spaces: byte a of the input, or the space that fills the fresh ring. */
  function At(src: seq<byte>, a: int): byte
    requires a < |src|
  {
    if a < 0 then SPACE else src[a]
  }

  /** The cell of text position a; position 0 goes to cell N - F. */
  function CellOf(a: int): Cell { (a + REACH) % N }

  /** How far cell p lies behind the cell of position pos, around the ring. */
  function Dist(pos: int, p: Cell): int { (pos + REACH - p) % N }

  lemma CellsDiffer(a: int, b: int)
    requires a < b < a + N
    ensures CellOf(a) != CellOf(b)
  {
  }

  lemma CellAround(a: int)
    ensures CellOf(a + N) == CellOf(a)
  {
  }

  lemma CellStep(a: int, k: nat)
    ensures CellOf(a + k) == (CellOf(a) + k) % N
  {
  }

  lemma DistOfCell(pos: int, d: int)
    requires 0 <= d < N
    ensures Dist(pos, CellOf(pos - d)) == d
  {
  }

  lemma CellOfDist(pos: int, p: Cell)
    ensures CellOf(pos - Dist(pos, p)) == p
  {
  }

  // ---- the brute-force reference ----

  /** m text bytes from position a on. */
  function Slice(src: seq<byte>, a: int, m: nat): (s: seq<byte>)
    requires a + m <= |src|
    ensures |s| == m && forall k :: 0 <= k < m ==> s[k] == At(src, a + k)
  {
    seq<byte>(m, k requires 0 <= k < m => At(src, a + k))
  }

  /** How much may be matched at pos: F bytes, or what is left of the text. */
  function Ahead(src: seq<byte>, pos: nat): nat
    requires pos <= |src|
  {
    Min(F, |src| - pos)
  }

  /** The number of bytes that agree, from d back and from pos on. */
  function MatchAt(src: seq<byte>, pos: nat, d: nat): nat
    requires pos <= |src| && 1 <= d <= REACH
  {
    Lcp(Slice(src, pos - d, Ahead(src, pos)), Slice(src, pos, Ahead(src, pos)))
  }

  /** The longest match at any distance from 1 to d, found by trying them all. */
  function LongestUpTo(src: seq<byte>, pos: nat, d: nat): nat
    requires pos <= |src| && d <= REACH
  {
    if d == 0 then 0
    else
      var m := LongestUpTo(src, pos, d - 1);
      if MatchAt(src, pos, d) > m then MatchAt(src, pos, d) else m
  }

  function Longest(src: seq<byte>, pos: nat): nat
    requires pos <= |src|
  {
    LongestUpTo(src, pos, REACH)
  }

  lemma {:induction false} LongestIsMaximum(src: seq<byte>, pos: nat, d: nat)
    requires pos <= |src| && d <= REACH
    ensures forall e :: 1 <= e <= d ==> MatchAt(src, pos, e) <= LongestUpTo(src, pos, d)
    ensures LongestUpTo(src, pos, d) == 0 || exists e :: 1 <= e <= d && MatchAt(src, pos, e) == LongestUpTo(src, pos, d)
  {
    if d > 0 { LongestIsMaximum(src, pos, d - 1); }
  }

  /** A bound that some distance attains is the longest match. */
  lemma LongestIs(src: seq<byte>, pos: nat, m: nat)
    requires pos <= |src|
    requires forall e :: 1 <= e <= REACH ==> MatchAt(src, pos, e) <= m
    requires m == 0 || exists e :: 1 <= e <= REACH && MatchAt(src, pos, e) == m
    ensures Longest(src, pos) == m
  {
    LongestIsMaximum(src, pos, REACH);
  }

  // ---- the blind spot ----

  /** The bytes from i up to j are all spaces. */
  predicate SpacesIn(src: seq<byte>, i: nat, j: nat)
    requires j <= |src|
  {
    forall k :: i <= k < j ==> src[k] == SPACE
  }

  /** F spaces begin at b. */
  predicate Run(src: seq<byte>, b: nat) {
    b + F <= |src| && SpacesIn(src, b, b + F)
  }

  /**
   * The trees start with the strings at -1, -2, ..., -F in this order, so a string of F spaces that
   * begins after -F is superseded by the one at -F, which leaves the window first. When it has left,
   * F spaces at pos are no longer found among the strings before the text, although some are still
   * within reach; unless F spaces have come up in the text itself, only F - 1 of them are matched.
   */
  ghost predicate Blind(src: seq<byte>, pos: nat) {
    && REACH - F < pos < REACH && pos <= |src|
    && SpacesIn(src, 0, pos - (REACH - F))
    && Run(src, pos)
    && (forall b :: 0 <= b < pos ==> !Run(src, b))
  }

  /** The length of the match that compress_lzss finds. */
  ghost function Found(src: seq<byte>, pos: nat): nat
    requires pos <= |src|
  {
    if Blind(src, pos) then F - 1 else Longest(src, pos)
  }

  lemma LcpAtLeast(a: seq<byte>, b: seq<byte>, n: nat)
    requires n <= |a| && n <= |b| && forall k :: 0 <= k < n ==> a[k] == b[k]
    ensures n <= Lcp(a, b)
  {
  }

  /** In the blind spot the brute-force search would have found F bytes; everywhere else both agree. */
  lemma BlindMisses(src: seq<byte>, pos: nat)
    requires pos <= |src|
    ensures Found(src, pos) == Longest(src, pos) <==> !Blind(src, pos)
    ensures Blind(src, pos) ==> Longest(src, pos) == F
  {
    if Blind(src, pos) {
      var x, y := Slice(src, pos - REACH, F), Slice(src, pos, F);
      forall k | 0 <= k < F ensures x[k] == y[k] {
        assert x[k] == At(src, pos - REACH + k) == SPACE;
        assert y[k] == src[pos + k] == SPACE;
      }
      LcpAtLeast(x, y, F);
      assert MatchAt(src, pos, REACH) == F;
      LongestIs(src, pos, F);
    }
  }

  /** A text that is short, or does not begin with a space, or begins with F of them, has no blind spot. */
  lemma NoBlindSpot(src: seq<byte>, pos: nat)
    requires |src| < REACH + 1 || src[0] != SPACE || Run(src, 0)
    ensures !Blind(src, pos)
  {
    if |src| > REACH && src[0] == SPACE { assert Run(src, 0); }
  }

  // ---- encodings ----

  /** The n bytes from pos on repeat those d earlier; the two stretches may overlap. */
  ghost predicate SameBack(src: seq<byte>, pos: nat, d: nat, n: nat)
    requires pos + n <= |src|
  {
    forall b :: pos <= b < pos + n ==> src[b] == At(src, b - d)
  }

  /** The unit is right at pos: the byte itself, or a pair that names an equal stretch of text. */
  ghost predicate Right(src: seq<byte>, pos: nat, t: Token) {
    && WellFormed(t) && pos + Span(t) <= |src|
    && match t
       case Literal(c) => c == src[pos]
       case Pair(p, length) =>
         1 <= Dist(pos, p) <= REACH
         && SameBack(src, pos, Dist(pos, p), length)
  }

  /** The unit is the encoder's choice: the match it finds when that is worth a pair, else a byte. */
  ghost predicate Greedy(src: seq<byte>, pos: nat, t: Token)
    requires pos <= |src|
  {
    if Found(src, pos) > THRESHOLD then t.Pair? && t.length == Found(src, pos) else t.Literal?
  }

  /** toks encode the text from position pos to the end, every unit the encoder's choice. */
  ghost predicate Encodes(src: seq<byte>, pos: nat, toks: seq<Token>)
    decreases toks
  {
    if toks == [] then pos == |src|
    else Right(src, pos, toks[0]) && Greedy(src, pos, toks[0]) && Encodes(src, pos + Span(toks[0]), toks[1..])
  }

  /** The first unit of an encoding. */
  lemma EncodesFirst(src: seq<byte>, pos: nat, toks: seq<Token>)
    requires Encodes(src, pos, toks) && pos < |src|
    ensures toks != [] && Right(src, pos, toks[0]) && Greedy(src, pos, toks[0]) && WellFormed(toks[0])
    ensures Encodes(src, pos + Span(toks[0]), toks[1..])
  {
  }

  /** An encoding consists of well-formed units and covers the text. */
  lemma {:induction false} EncodesIsWellFormed(src: seq<byte>, pos: nat, toks: seq<Token>)
    requires Encodes(src, pos, toks)
    ensures AllWellFormed(toks) && pos + Covered(toks) == |src|
    decreases toks
  {
    if toks != [] { EncodesIsWellFormed(src, pos + Span(toks[0]), toks[1..]); }
  }
}
