/** decompress_lzss of src/lzss.c. */
module LzssDecoder {
  import opened Common
  import opened LzssFormat
  import opened LzssPacking
  import opened LzssWindow
  import opened Bits

  /** The ring and the cell that is written next. */
  datatype Ring = Ring(text: Text, r: Cell)

  function Put(ring: Ring, c: byte): Ring {
    Ring(ring.text[ring.r := c], (ring.r + 1) % N)
  }

  /** The bytes that a pair produces, read one by one while the ring is being written. */
  function CopyOut(ring: Ring, i: Cell, n: nat): (s: seq<byte>)
    ensures |s| == n
    decreases n
  {
    if n == 0 then [] else [ring.text[i]] + CopyOut(Put(ring, ring.text[i]), (i + 1) % N, n - 1)
  }

  function CopyRing(ring: Ring, i: Cell, n: nat): Ring
    decreases n
  {
    if n == 0 then ring else CopyRing(Put(ring, ring.text[i]), (i + 1) % N, n - 1)
  }

  /** The bytes one unit stands for. */
  function UnitOut(t: Token, ring: Ring): (s: seq<byte>)
    requires WellFormed(t)
    ensures |s| == Span(t)
  {
    match t
    case Literal(c) => [c]
    case Pair(p, length) => CopyOut(ring, p, length)
  }

  function UnitRing(t: Token, ring: Ring): Ring {
    match t
    case Literal(c) => Put(ring, c)
    case Pair(p, length) => CopyRing(ring, p, length)
  }

  /** What a token sequence stands for, given the ring it starts from. */
  function Replay(toks: seq<Token>, ring: Ring): (s: seq<byte>)
    requires AllWellFormed(toks)
    ensures |s| == Covered(toks)
  {
    if toks == [] then [] else UnitOut(toks[0], ring) + Replay(toks[1..], UnitRing(toks[0], ring))
  }

  /** N - F spaces, then whatever the memory held. */
  function FreshRing(junk: seq<byte>): Ring
    requires |junk| == 2 * F - 1
  {
    Ring(seq(REACH, _ => SPACE) + junk, REACH)
  }

  // ---- lock-step with the text ----

  /** The decoder stands at position pos and its ring holds the text it may be asked for. */
  ghost predicate InStep(ring: Ring, src: seq<byte>, pos: nat) {
    && pos <= |src| && ring.r == CellOf(pos)
    && forall a :: pos - REACH <= a < pos ==> ring.text[CellOf(a)] == At(src, a)
  }

  /** Whatever the uninitialised cells hold, the fresh ring is in step. */
  lemma FreshInStep(junk: seq<byte>, src: seq<byte>)
    requires |junk| == 2 * F - 1
    ensures InStep(FreshRing(junk), src, 0)
  {
  }

  lemma PutKeepsStep(ring: Ring, src: seq<byte>, pos: nat)
    requires InStep(ring, src, pos) && pos < |src|
    ensures InStep(Put(ring, src[pos]), src, pos + 1)
  {
    CellStep(pos, 1);
    forall a | pos + 1 - REACH <= a < pos + 1
      ensures Put(ring, src[pos]).text[CellOf(a)] == At(src, a)
    {
      if a < pos { CellsDiffer(a, pos); }
    }
  }

  /** The byte a pair reads next is the next byte of the text. */
  lemma CopiedByte(ring: Ring, src: seq<byte>, pos: nat, d: nat, n: nat)
    requires InStep(ring, src, pos) && 0 < n && pos + n <= |src| && 1 <= d <= REACH && SameBack(src, pos, d, n)
    ensures ring.text[CellOf(pos - d)] == src[pos]
    ensures SameBack(src, pos + 1, d, n - 1)
  {
  }

  /** One byte more in front of a copy. */
  lemma CopyNext(ring: Ring, i: Cell, src: seq<byte>, pos: nat, n: nat)
    requires 0 < n && pos + n <= |src| && ring.text[i] == src[pos]
    ensures var next := Put(ring, src[pos]);
            && CopyRing(ring, i, n) == CopyRing(next, (i + 1) % N, n - 1)
            && (CopyOut(next, (i + 1) % N, n - 1) == src[pos + 1..pos + n] ==> CopyOut(ring, i, n) == src[pos..pos + n])
  {
    assert src[pos..pos + n] == [src[pos]] + src[pos + 1..pos + n];
  }

  lemma CopyNothing(ring: Ring, src: seq<byte>, pos: nat, i: Cell)
    requires pos <= |src|
    ensures CopyOut(ring, i, 0) == src[pos..pos + 0] && CopyRing(ring, i, 0) == ring
  {
  }

  /** A pair that names an equal stretch reproduces it, even where source and target overlap. */
  lemma {:induction false} CopyKeepsStep(ring: Ring, src: seq<byte>, pos: nat, d: nat, n: nat)
    requires InStep(ring, src, pos) && pos + n <= |src| && 1 <= d <= REACH
    requires SameBack(src, pos, d, n)
    ensures CopyOut(ring, CellOf(pos - d), n) == src[pos..pos + n]
    ensures InStep(CopyRing(ring, CellOf(pos - d), n), src, pos + n)
    decreases n
  {
    hide *;
    if n == 0 {
      CopyNothing(ring, src, pos, CellOf(pos - d));
      return;
    }
    CopiedByte(ring, src, pos, d, n);
    PutKeepsStep(ring, src, pos);
    CellStep(pos - d, 1);
    assert pos - d + 1 == (pos + 1) - d;
    CopyKeepsStep(Put(ring, src[pos]), src, pos + 1, d, n - 1);
    CopyNext(ring, CellOf(pos - d), src, pos, n);
  }

  /** One right unit reproduces its stretch of text and leaves the ring in step. */
  lemma UnitKeepsStep(src: seq<byte>, pos: nat, t: Token, ring: Ring)
    requires Right(src, pos, t) && InStep(ring, src, pos)
    ensures UnitOut(t, ring) == src[pos..pos + Span(t)]
    ensures InStep(UnitRing(t, ring), src, pos + Span(t))
  {
    match t
    case Literal(c) => PutKeepsStep(ring, src, pos);
    case Pair(p, length) =>
      CellOfDist(pos, p);
      CopyKeepsStep(ring, src, pos, Dist(pos, p), length);
  }

  lemma EncodesUnfold(src: seq<byte>, pos: nat, toks: seq<Token>)
    requires Encodes(src, pos, toks) && toks != []
    ensures WellFormed(toks[0]) && Right(src, pos, toks[0]) && pos + Span(toks[0]) <= |src|
    ensures Encodes(src, pos + Span(toks[0]), toks[1..])
  {
  }

  lemma ReplayUnfold(toks: seq<Token>, ring: Ring)
    requires AllWellFormed(toks) && toks != []
    ensures AllWellFormed(toks[1..])
    ensures Replay(toks, ring) == UnitOut(toks[0], ring) + Replay(toks[1..], UnitRing(toks[0], ring))
  {
  }

  lemma SliceSplit(src: seq<byte>, pos: nat, next: nat)
    requires pos <= next <= |src|
    ensures src[pos..] == src[pos..next] + src[next..]
  {
  }

  lemma ReplayNothing(src: seq<byte>, pos: nat, ring: Ring)
    requires Encodes(src, pos, [])
    ensures AllWellFormed([]) && pos == |src| && Replay([], ring) == src[pos..]
  {
  }

  /** Replaying an encoding from any ring in step yields the rest of the text. */
  lemma {:induction false} ReplayEncoding(src: seq<byte>, pos: nat, toks: seq<Token>, ring: Ring)
    requires Encodes(src, pos, toks) && InStep(ring, src, pos)
    ensures AllWellFormed(toks) && Replay(toks, ring) == src[pos..]
    decreases toks
  {
    hide *;
    if toks == [] {
      ReplayNothing(src, pos, ring);
      return;
    }
    EncodesIsWellFormed(src, pos, toks);
    EncodesUnfold(src, pos, toks);
    ReplayUnfold(toks, ring);
    var next := pos + Span(toks[0]);
    UnitKeepsStep(src, pos, toks[0], ring);
    ReplayEncoding(src, next, toks[1..], UnitRing(toks[0], ring));
    SliceSplit(src, pos, next);
  }

  /** Decoding the bytes of an encoding gives the text back, whatever the memory held before. */
  lemma DecodeEncoding(src: seq<byte>, toks: seq<Token>, junk: seq<byte>)
    requires Encodes(src, 0, toks) && |junk| == 2 * F - 1
    ensures AllWellFormed(toks) && Parse(Pack(toks), 0) == toks
    ensures Replay(Parse(Pack(toks), 0), FreshRing(junk)) == src
  {
    EncodesIsWellFormed(src, 0, toks);
    ParsePack(toks);
    FreshInStep(junk, src);
    ReplayEncoding(src, 0, toks, FreshRing(junk));
  }

  /** The first units stand for the first bytes. */
  lemma {:induction false} ReplayPrefix(toks: seq<Token>, k: nat, ring: Ring)
    requires k <= |toks| && AllWellFormed(toks)
    ensures AllWellFormed(toks[..k]) && Replay(toks[..k], ring) <= Replay(toks, ring)
    decreases k
  {
    if k > 0 {
      assert toks[..k][0] == toks[0] && toks[..k][1..] == toks[1..][..k - 1];
      ReplayPrefix(toks[1..], k - 1, UnitRing(toks[0], ring));
    }
  }

  /** From the first k bytes of any input come the first bytes of what comes from all of it. */
  lemma CutInput(s: seq<byte>, k: nat, ring: Ring)
    requires k <= |s|
    ensures Replay(Parse(s[..k], 0), ring) <= Replay(Parse(s, 0), ring)
  {
    hide Parse, Replay;
    ParsePrefix(s, k, 0);
    var n := |Parse(s[..k], 0)|;
    assert Parse(s, 0)[..n] == Parse(s[..k], 0);
    ReplayPrefix(Parse(s, 0), n, ring);
  }

  // ---- the routine ----

  /** n more bytes are to be copied from cell i on; `out` and `end` are the whole result. */
  ghost predicate Copying(out: seq<byte>, end: Ring, done: seq<byte>, ring: Ring, i: Cell, n: nat) {
    out == done + CopyOut(ring, i, n) && end == CopyRing(ring, i, n)
  }

  lemma CopyStep(out: seq<byte>, end: Ring, done: seq<byte>, ring: Ring, i: Cell, n: nat)
    requires Copying(out, end, done, ring, i, n) && n > 0
    ensures var c := ring.text[i];
            Copying(out, end, done + [c], Put(ring, c), (i + 1) % N, n - 1)
  {
  }

  lemma NextCell(i: Cell, k: nat)
    ensures (i + (k + 1)) % N == ((i + k) % N + 1) % N
  {
  }

  /** One byte goes to dst and to the ring. */
  method PutByte(dst: array<byte>, d0: nat, textBuf: array<byte>, r0: Cell, c: byte)
    returns (d: nat, r: Cell)
    requires dst != textBuf && textBuf.Length == N + F - 1 && d0 < dst.Length
    modifies dst, textBuf
    ensures d == d0 + 1
    ensures dst[..d] == old(dst[..d0]) + [c]
    ensures Ring(textBuf[..], r) == Put(Ring(old(textBuf[..]), r0), c)
    ensures forall x :: d <= x < dst.Length ==> dst[x] == old(dst[x])
  {
    dst[d0] := c;
    textBuf[r0] := c;
    r := (r0 + 1) % N;
    d := d0 + 1;
  }

  /** The inner loop: n bytes from cell i on, to dst and to the ring alike. */
  method CopyPair(dst: array<byte>, d0: nat, textBuf: array<byte>, r0: Cell, i: Cell, n: nat)
    returns (d: nat, r: Cell)
    requires dst != textBuf && textBuf.Length == N + F - 1 && d0 + n <= dst.Length
    modifies dst, textBuf
    ensures d == d0 + n
    ensures var ring := Ring(old(textBuf[..]), r0);
            && dst[..d] == old(dst[..d0]) + CopyOut(ring, i, n)
            && Ring(textBuf[..], r) == CopyRing(ring, i, n)
    ensures forall x :: d <= x < dst.Length ==> dst[x] == old(dst[x])
  {
    d, r := d0, r0;
    ghost var ring := Ring(textBuf[..], r0);
    ghost var out, end := dst[..d0] + CopyOut(ring, i, n), CopyRing(ring, i, n);
    for k := 0 to n
      invariant d == d0 + k
      invariant Copying(out, end, dst[..d], Ring(textBuf[..], r), (i + k) % N, n - k)
      invariant forall x :: d <= x < dst.Length ==> dst[x] == old(dst[x])
    {
      CopyStep(out, end, dst[..d], Ring(textBuf[..], r), (i + k) % N, n - k);
      hide Copying, Put;
      ghost var done, now, c := dst[..d], Ring(textBuf[..], r), textBuf[(i + k) % N];
      d, r := PutByte(dst, d, textBuf, r, textBuf[(i + k) % N]);
      assert dst[..d] == done + [c] && Ring(textBuf[..], r) == Put(now, c);
      NextCell(i, k);
    }
  }

  /** The decoder still has to replay `left`; what it produces completes `done` to `out`. */
  ghost predicate Producing(out: seq<byte>, done: seq<byte>, left: seq<Token>, ring: Ring) {
    AllWellFormed(left) && out == done + Replay(left, ring)
  }

  lemma ProduceStart(left: seq<Token>, ring: Ring)
    requires AllWellFormed(left)
    ensures Producing(Replay(left, ring), [], left, ring)
  {
  }

  lemma ProduceUnit(out: seq<byte>, done: seq<byte>, left: seq<Token>, ring: Ring)
    requires Producing(out, done, left, ring) && left != []
    ensures |done| + Span(left[0]) <= |out|
    ensures Producing(out, done + UnitOut(left[0], ring), left[1..], UnitRing(left[0], ring))
  {
  }

  lemma ProducedAll(out: seq<byte>, done: seq<byte>, ring: Ring)
    requires Producing(out, done, [], ring)
    ensures out == done
  {
  }

  /** What the reader has in hand after the flag register has been shifted and, if due, reloaded. */
  lemma ReaderStep(s: seq<byte>, flags: nat)
    ensures Shr(flags, 1) == flags / 2
    ensures And(flags / 2, 0x100) != 0 ==> Parse(s, flags) == ParseUnit(s, flags / 2)
    ensures And(flags / 2, 0x100) == 0 ==>
              Parse(s, flags) == if s == [] then [] else ParseUnit(s[1..], Or(s[0], 0xFF00))
  {
    hide And, Or, Shr, Shl, ParseUnit, PairOf;
    ReaderBits(flags, 0, 0, 0);
    ReaderBits(flags / 2, if s == [] then 0 else s[0], 0, 0);
  }

  lemma UnitStep(s: seq<byte>, f: nat)
    ensures And(f, 1) != 0 ==> ParseUnit(s, f) == if s == [] then [] else [Literal(s[0])] + Parse(s[1..], f)
    ensures And(f, 1) == 0 ==>
              ParseUnit(s, f) == if |s| < 2 then [] else [PairOf(s[0], s[1])] + Parse(s[2..], f)
    ensures |s| >= 2 ==>
              && Or(s[0], Shl(And(s[1], 0xF0), 4)) < N
              && PairOf(s[0], s[1]) == Pair(Or(s[0], Shl(And(s[1], 0xF0), 4)), And(s[1], 0x0F) + THRESHOLD + 1)
              && And(s[1], 0x0F) + THRESHOLD + 1 <= F
  {
    ReaderBits(f, 0, if |s| < 2 then 0 else s[0], if |s| < 2 then 0 else s[1]);
  }

  /** One unit of the main loop; `more` is false when the input ends before the unit does. */
  method DecodeUnit(dst: array<byte>, n0: nat, textBuf: array<byte>, r0: Cell,
        src: seq<byte>, p0: nat, flags: nat, ghost out: seq<byte>)
    returns (n: nat, r: Cell, p: nat, more: bool)
    requires dst != textBuf && textBuf.Length == N + F - 1
    requires p0 <= |src| && n0 <= dst.Length && |out| <= dst.Length
    requires Producing(out, dst[..n0], ParseUnit(src[p0..], flags), Ring(textBuf[..], r0))
    modifies dst, textBuf
    ensures n0 <= n <= dst.Length && p0 <= p <= |src|
    ensures more ==> p0 < p && Producing(out, dst[..n], Parse(src[p..], flags), Ring(textBuf[..], r))
    ensures !more ==> out == dst[..n]
    ensures forall x :: n <= x < dst.Length ==> dst[x] == old(dst[x])
  {
    n, r, p, more := n0, r0, p0, true;
    UnitStep(src[p..], flags);
    hide Parse, Replay, Producing, CopyOut, CopyRing, Put, And, Or, Shl, Shr, AllWellFormed;
    ghost var left, done, ring := ParseUnit(src[p0..], flags), dst[..n], Ring(textBuf[..], r);
    hide ParseUnit;
    if left == [] { ProducedAll(out, done, ring); } else { ProduceUnit(out, done, left, ring); }
    if And(flags, 1) != 0 {
      if p == |src| { return n, r, p, false; }
      var c := src[p];
      p := p + 1;
      n, r := PutByte(dst, n, textBuf, r, c);
    } else {
      if p == |src| { return n, r, p, false; }
      var i: nat := src[p];
      p := p + 1;
      if p == |src| { return n, r, p, false; }
      var j: nat := src[p];
      p := p + 1;
      i := Or(i, Shl(And(j, 0xF0), 4));
      j := And(j, 0x0F) + THRESHOLD;
      n, r := CopyPair(dst, n, textBuf, r, i, j + 1);
    }
    assert left[1..] == Parse(src[p..], flags);
    assert dst[..n] == done + UnitOut(left[0], ring) && Ring(textBuf[..], r) == UnitRing(left[0], ring);
  }

  /** A new ring of which only the first N - F cells are set. */
  method FreshText() returns (textBuf: array<byte>, ghost junk: seq<byte>)
    ensures fresh(textBuf) && textBuf.Length == N + F - 1 && |junk| == 2 * F - 1
    ensures Ring(textBuf[..], N - F) == FreshRing(junk)
  {
    textBuf := new byte[N + F - 1];
    for i := 0 to N - F
      modifies textBuf
      invariant forall j :: 0 <= j < i ==> textBuf[j] == SPACE
    {
      textBuf[i] := SPACE;
    }
    junk := textBuf[N - F..];
  }

  /** Decompresses src into dst; `junk` is what the uninitialised end of the ring held. */
  method DecompressLzss(dst: array<byte>, src: seq<byte>) returns (n: nat, ghost junk: seq<byte>)
    requires Covered(Parse(src, 0)) <= dst.Length
    modifies dst
    ensures |junk| == 2 * F - 1 && n == Covered(Parse(src, 0))
    ensures dst[..n] == Replay(Parse(src, 0), FreshRing(junk))
    ensures forall x :: n <= x < dst.Length ==> dst[x] == old(dst[x])
  {
    hide Parse, ParseUnit, Replay, Producing, Covered, AllWellFormed, And, Or, Shl, Shr, FreshRing;
    var textBuf;
    textBuf, junk := FreshText();
    var r: Cell := N - F;
    var flags: nat := 0;
    n := 0;
    var p := 0;
    ghost var out := Replay(Parse(src, 0), FreshRing(junk));
    ProduceStart(Parse(src, 0), FreshRing(junk));
    assert src[p..] == src && dst[..n] == [];
    var more := true;
    while more
      invariant p <= |src| && n <= dst.Length
      invariant if more then Producing(out, dst[..n], Parse(src[p..], flags), Ring(textBuf[..], r)) else out == dst[..n]
      invariant forall x :: n <= x < dst.Length ==> dst[x] == old(dst[x])
      decreases more, |src| - p
    {
      ReaderStep(src[p..], flags);
      flags := Shr(flags, 1);
      if And(flags, 0x100) == 0 {
        if p == |src| {
          ProducedAll(out, dst[..n], Ring(textBuf[..], r));
          more := false;
        } else {
          flags := Or(src[p], 0xFF00);
          p := p + 1;
        }
      }
      if more {
        n, r, p, more := DecodeUnit(dst, n, textBuf, r, src, p, flags, out);
      }
    }
  }
}
