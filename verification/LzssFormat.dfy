/** Constants, cells and tokens of the LZSS coder in src/lzss.c. */
module LzssFormat {
  import opened Common

  const N := 4096        // size of the ring buffer
  const F := 18          // upper limit for the match length
  const THRESHOLD := 2   // a match is sent as a pair only when longer than this
  const NIL := N         // "no node"; NIL + 1 + c is the root of the tree of first byte c
  const SPACE: byte := 32

  /** A cell of the ring; it doubles as a tree node. */
  type Cell = c: int | 0 <= c < N

  /** The ring with its mirror: cells N..N+F-2 repeat cells 0..F-2. */
  type Text = t: seq<byte> | |t| == N + F - 1 witness seq(N + F - 1, _ => 0)

  /** One coded unit: a byte sent as is, or a reference into the ring. */
  datatype Token = Literal(c: byte) | Pair(position: Cell, length: nat)

  predicate WellFormed(t: Token) {
    t.Pair? ==> THRESHOLD < t.length <= F
  }

  function Span(t: Token): nat
    requires WellFormed(t)
  {
    if t.Literal? then 1 else t.length
  }

  /** The F bytes that start at cell p, as the tree comparisons read them. */
  function Key(text: Text, p: Cell): (k: seq<byte>)
    ensures |k| == F
  {
    text[p..p + F]
  }
}
