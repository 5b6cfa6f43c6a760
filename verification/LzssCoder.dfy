/** compress_lzss as a function: which units it sends, tie-breaking included. */
module LzssCoder {
  import opened Common
  import opened LzssFormat
  import opened LzssTree
  import opened LzssForest
  import opened LzssWindow

  /** The coder's trees, its ring with the mirror, and the last match. */
  datatype Coder = Coder(ts: Trees, text: Text, m: Match)

  // ---- the start ----

  function NoTrees(): (ts: Trees)
    ensures forall c: byte :: ts[c] == Leaf
  {
    seq(256, _ => Leaf)
  }

  /** The ring after init_state and the first read. */
  function FirstRing(src: seq<byte>): (text: Text)
    ensures forall i :: 0 <= i < N + F - 1 ==>
              text[i] == if i < REACH then SPACE else if i < REACH + |src| && i < N then src[i - REACH] else 0
  {
    seq<byte>(N + F - 1, i requires 0 <= i < N + F - 1 =>
      if i < REACH then SPACE else if i < REACH + |src| && i < N then src[i - REACH] else 0)
  }

  /** insert_node: the string at r goes into its tree, and the longest match in it is looked up. */
  function Registered(c: Coder, r: Cell): Coder {
    Coder(InsertAt(c.ts, c.text, r), c.text, SearchAt(c.ts, c.text, r, c.m.position))
  }

  /** The strings at -1 down to -i. */
  function Preceded(src: seq<byte>, i: nat): Coder
    requires i <= F
  {
    if i == 0 then Coder(NoTrees(), FirstRing(src), Match(0, 0)) else Registered(Preceded(src, i - 1), N - F - i)
  }

  function Begun(src: seq<byte>): Coder {
    Registered(Preceded(src, F), N - F)
  }

  // ---- sliding ----

  /** A byte is read into its cell and, at the front of the ring, into the mirror. */
  function Stored(text: Text, s: Cell, b: byte): Text {
    var text' := text[s := b];
    if s < F - 1 then text'[s + N := b] else text'
  }

  /** One step forward: the oldest string out, a byte in if there is one left, the next string in. */
  function Slid(src: seq<byte>, pos: nat, c: Coder): Coder {
    var s := CellOf(pos + F);
    var ts := DeleteAt(c.ts, c.text, s);
    if pos + F < |src| then Registered(Coder(ts, Stored(c.text, s, src[pos + F]), c.m), CellOf(pos + 1))
    else if pos + 1 < |src| then Registered(Coder(ts, c.text, c.m), CellOf(pos + 1))
    else Coder(ts, c.text, c.m)
  }

  function SlidBy(src: seq<byte>, pos: nat, c: Coder, n: nat): Coder
    decreases n
  {
    if n == 0 then c else Slid(src, pos + n - 1, SlidBy(src, pos, c, n - 1))
  }

  // ---- the units ----

  /** The unit sent at pos: the match that has been found, cut to the rest of the text, or one byte. */
  ghost predicate Chosen(src: seq<byte>, pos: nat, c: Coder, t: Token)
    requires pos <= |src|
  {
    var n := if c.m.length > Ahead(src, pos) then Ahead(src, pos) else c.m.length;
    if n <= THRESHOLD then t.Literal? && t.c == c.text[CellOf(pos)]
    else t.Pair? && t.position == c.m.position && t.length == n
  }

  /** toks are what the coder sends from pos on. */
  ghost predicate Coded(src: seq<byte>, pos: nat, c: Coder, toks: seq<Token>)
    decreases toks
  {
    if toks == [] then pos == |src|
    else
      && pos < |src| && Chosen(src, pos, c, toks[0]) && WellFormed(toks[0])
      && Coded(src, pos + Span(toks[0]), SlidBy(src, pos, c, Span(toks[0])), toks[1..])
  }

  lemma CodedFirst(src: seq<byte>, pos: nat, c: Coder, toks: seq<Token>)
    requires Coded(src, pos, c, toks)
    ensures if toks == [] then pos == |src|
            else
              && pos < |src| && Chosen(src, pos, c, toks[0]) && WellFormed(toks[0])
              && Coded(src, pos + Span(toks[0]), SlidBy(src, pos, c, Span(toks[0])), toks[1..])
  {
  }

  lemma ChosenIsUnique(src: seq<byte>, pos: nat, c: Coder, s: Token, t: Token)
    requires pos <= |src| && Chosen(src, pos, c, s) && Chosen(src, pos, c, t)
    ensures s == t
  {
  }

  /** The text determines what is sent. */
  lemma {:induction false} CodedIsUnique(src: seq<byte>, pos: nat, c: Coder, a: seq<Token>, b: seq<Token>)
    requires Coded(src, pos, c, a) && Coded(src, pos, c, b)
    ensures a == b
    decreases a
  {
    hide *;
    CodedFirst(src, pos, c, a);
    CodedFirst(src, pos, c, b);
    if a != [] {
      ChosenIsUnique(src, pos, c, a[0], b[0]);
      CodedIsUnique(src, pos + Span(a[0]), SlidBy(src, pos, c, Span(a[0])), a[1..], b[1..]);
      assert a == [a[0]] + a[1..] && b == [b[0]] + b[1..];
    }
  }
}
