/** compress_lzss of src/lzss.c. */
module LzssEncoder {
  import opened Common
  import opened LzssFormat
  import opened LzssKeys
  import opened LzssTree
  import opened LzssForest
  import opened LzssEncodeState
  import opened LzssPacking
  import opened LzssWindow
  import opened LzssMatching
  import opened LzssCoder
  import opened Bits

  // ---- encodings, from the front ----

  /** Whatever encodes the text from pos on completes `done` to an encoding of the whole. */
  ghost predicate LeadsTo(src: seq<byte>, done: seq<Token>, pos: nat) {
    forall rest :: Encodes(src, pos, rest) ==> Encodes(src, 0, done + rest)
  }

  lemma LeadsToStart(src: seq<byte>)
    ensures LeadsTo(src, [], 0)
  {
    forall rest | Encodes(src, 0, rest) ensures Encodes(src, 0, [] + rest) {
      assert [] + rest == rest;
    }
  }

  lemma EncodesCons(src: seq<byte>, pos: nat, t: Token, rest: seq<Token>)
    requires pos < |src| && Right(src, pos, t) && Greedy(src, pos, t) && Encodes(src, pos + Span(t), rest)
    ensures Encodes(src, pos, [t] + rest)
  {
    assert ([t] + rest)[1..] == rest;
  }

  lemma LeadsToNext(src: seq<byte>, done: seq<Token>, pos: nat, t: Token)
    requires LeadsTo(src, done, pos) && pos < |src| && Right(src, pos, t) && Greedy(src, pos, t)
    ensures LeadsTo(src, done + [t], pos + Span(t))
  {
    assert WellFormed(t);
    hide Encodes, Right, Greedy, WellFormed;
    forall rest | Encodes(src, pos + Span(t), rest) ensures Encodes(src, 0, done + [t] + rest) {
      EncodesCons(src, pos, t, rest);
      assert done + [t] + rest == done + ([t] + rest);
    }
  }

  lemma LeadsToEnd(src: seq<byte>, done: seq<Token>)
    requires LeadsTo(src, done, |src|)
    ensures Encodes(src, 0, done)
  {
    assert Encodes(src, |src|, []);
    assert done + [] == done;
  }

  /** Likewise for what the coder sends: c is its state at pos. */
  ghost predicate CodesOn(src: seq<byte>, done: seq<Token>, pos: nat, c: Coder) {
    forall rest :: Coded(src, pos, c, rest) ==> Coded(src, 0, Begun(src), done + rest)
  }

  lemma CodesOnStart(src: seq<byte>)
    ensures CodesOn(src, [], 0, Begun(src))
  {
    hide Coded;
    forall rest | Coded(src, 0, Begun(src), rest) ensures Coded(src, 0, Begun(src), [] + rest) {
      assert [] + rest == rest;
    }
  }

  lemma CodedCons(src: seq<byte>, pos: nat, c: Coder, t: Token, rest: seq<Token>)
    requires pos < |src| && Chosen(src, pos, c, t) && WellFormed(t)
    requires Coded(src, pos + Span(t), SlidBy(src, pos, c, Span(t)), rest)
    ensures Coded(src, pos, c, [t] + rest)
  {
    hide SlidBy, Chosen, Ahead;
    var toks := [t] + rest;
    assert toks[0] == t && toks[1..] == rest;
  }

  lemma CodesOnNext(src: seq<byte>, done: seq<Token>, pos: nat, c: Coder, t: Token)
    requires CodesOn(src, done, pos, c) && pos < |src| && Chosen(src, pos, c, t) && WellFormed(t)
    ensures CodesOn(src, done + [t], pos + Span(t), SlidBy(src, pos, c, Span(t)))
  {
    hide Coded, Chosen, SlidBy, WellFormed, Begun, Span;
    var next := SlidBy(src, pos, c, Span(t));
    forall rest | Coded(src, pos + Span(t), next, rest) ensures Coded(src, 0, Begun(src), done + [t] + rest) {
      CodedCons(src, pos, c, t, rest);
      assert done + [t] + rest == done + ([t] + rest);
    }
  }

  lemma CodesOnEnd(src: seq<byte>, done: seq<Token>, c: Coder)
    requires CodesOn(src, done, |src|, c)
    ensures Coded(src, 0, Begun(src), done)
  {
    assert Coded(src, |src|, c, []);
    assert done + [] == done;
  }

  /** What the encoder finds is somewhere within reach. */
  lemma FoundIsThere(src: seq<byte>, pos: nat) returns (e: nat)
    requires pos < |src| && Found(src, pos) > 0
    ensures 1 <= e <= REACH && Found(src, pos) <= MatchAt(src, pos, e)
  {
    LongestIsMaximum(src, pos, REACH);
    BlindMisses(src, pos);
    e :| 1 <= e <= REACH && MatchAt(src, pos, e) == Longest(src, pos);
  }

  /** Every text has an encoding. */
  lemma Complete(src: seq<byte>, pos: nat) returns (toks: seq<Token>)
    requires pos <= |src|
    ensures Encodes(src, pos, toks)
    decreases |src| - pos
  {
    if pos == |src| {
      toks := [];
    } else {
      var t := Literal(src[pos]);
      if Found(src, pos) > THRESHOLD {
        var e := FoundIsThere(src, pos);
        DistOfCell(pos, e);
        MatchIsSameBack(src, pos, e, Found(src, pos));
        t := Pair(CellOf(pos - e), Found(src, pos));
      }
      var rest := Complete(src, pos + Span(t));
      toks := [t] + rest;
      EncodesCons(src, pos, t, rest);
    }
  }

  // ---- the code buffer ----

  /** codeBuf holds the group so far; mask stands at the bit of the next unit. */
  ghost predicate Pending(code: seq<byte>, ptr: nat, mask: nat, group: seq<Token>) {
    && |code| == 17 && AllWellFormed(group) && |group| < 8
    && ptr == |Group(group)| && code[..ptr] == Group(group) && mask == Shl(1, |group|)
  }

  lemma GroupParts(group: seq<Token>)
    requires AllWellFormed(group) && |group| <= 8
    ensures Group(group)[0] == Flags(group) && Group(group)[1..] == Codes(group)
  {
  }

  /** The next unit changes the flag byte and adds its code. */
  lemma GroupAppend(group: seq<Token>, t: Token)
    requires AllWellFormed(group) && WellFormed(t) && |group| < 8
    ensures AllWellFormed(group + [t])
    ensures Group(group + [t])[0] == Flags(group + [t])
    ensures Group(group + [t])[1..] == Group(group)[1..] + Code(t)
  {
    GroupParts(group);
    CodesAppend(group, t);
    hide Group, Codes, Flags, Code, WellFormed;
    GroupParts(group + [t]);
  }

  /** Sends the first ptr bytes of the code buffer; fails at the end of dst. */
  method Send(codeBuf: array<byte>, ptr: nat, dst: array<byte>, dstlen: nat, d0: nat) returns (d: nat, ok: bool)
    requires codeBuf != dst && ptr <= codeBuf.Length && d0 <= dstlen <= dst.Length
    modifies dst
    ensures ok <==> d0 + ptr <= dstlen
    ensures ok ==> d == d0 + ptr && dst[..d] == old(dst[..d0]) + codeBuf[..ptr]
    ensures forall x :: dstlen <= x < dst.Length ==> dst[x] == old(dst[x])
  {
    d := d0;
    for i := 0 to ptr
      invariant d == d0 + i <= dstlen
      invariant dst[..d] == old(dst[..d0]) + codeBuf[..i]
      invariant forall x :: dstlen <= x < dst.Length ==> dst[x] == old(dst[x])
    {
      if d < dstlen {
        dst[d] := codeBuf[i];
        d := d + 1;
      } else {
        return d, false;
      }
    }
    ok := true;
  }

  /** Puts one unit into the code buffer and sets its flag. */
  method PutUnit(codeBuf: array<byte>, ptr0: nat, mask: nat, t: Token, ghost group: seq<Token>) returns (ptr: nat)
    requires Pending(codeBuf[..], ptr0, mask, group) && WellFormed(t)
    modifies codeBuf
    ensures AllWellFormed(group + [t]) && ptr == |Group(group + [t])| <= 17
    ensures codeBuf[..ptr] == Group(group + [t])
  {
    ptr := ptr0;
    ghost var g := Group(group);
    FlagBits(group, t);
    GroupParts(group);
    GroupAppend(group, t);
    assert codeBuf[0] == Flags(group) && g == codeBuf[..ptr];
    CodeIs(t);
    hide Group, Codes, Flags, Or, And, Shl, Shr, Code, AllWellFormed;
    if t.Literal? {
      codeBuf[0] := Or(codeBuf[0], mask) as byte;
      codeBuf[ptr] := t.c;
      ptr := ptr + 1;
    } else {
      WriterBits(t);
      codeBuf[ptr] := t.position % 256;
      ptr := ptr + 1;
      codeBuf[ptr] := Or(And(Shr(t.position, 4), 0xF0), t.length - (THRESHOLD + 1));
      ptr := ptr + 1;
    }
    assert codeBuf[..ptr][1..] == g[1..] + Code(t);
    SameBytes(codeBuf[..ptr], Group(group + [t]));
  }

  lemma CodeIs(t: Token)
    requires WellFormed(t)
    ensures |Code(t)| == (if t.Literal? then 1 else 2) && (t.Literal? ==> Code(t) == [t.c])
  {
  }

  lemma SameBytes(a: seq<byte>, b: seq<byte>)
    requires a != [] && b != [] && a[0] == b[0] && a[1..] == b[1..]
    ensures a == b
  {
    assert a == [a[0]] + a[1..] && b == [b[0]] + b[1..];
  }

  // ---- sliding the window ----

  /**
   * The coder stands at pos in state c: its variables and, before the end, its ring and trees are right,
   * and so is its match for pos if one has been looked for.
   */
  ghost predicate Placed(sp: EncodeState, c: Coder, src: seq<byte>, pos: nat, s: Cell, r: Cell, p: nat, len: nat,
      matched: bool)
    reads sp, sp.lchild, sp.rchild, sp.parent, sp.textBuf
  {
    && sp.Valid()
    && InState(sp, c)
    && (len > 0 && matched ==> sp.matchLength == c.m.length)
    && pos <= |src| && len == Ahead(src, pos) && p == pos + len
    && r == CellOf(pos) && s == CellOf(pos + F)
    && (len > 0 ==> Scene(sp.trees, sp.Text(), src, pos, len, pos))
    && (len > 0 && matched ==> Matched(src, pos, Match(sp.matchLength, sp.matchPosition)))
  }

  /** Registers the string at pos and finds its match. */
  method Register(sp: EncodeState, r: Cell, ghost src: seq<byte>, ghost pos: nat)
    requires sp.Valid() && pos < |src| && r == CellOf(pos)
    requires Scene(sp.trees, sp.Text(), src, pos, Ahead(src, pos), pos - 1)
    modifies sp, sp.lchild, sp.rchild, sp.parent
    ensures sp.Valid()
    ensures Scene(sp.trees, sp.Text(), src, pos, Ahead(src, pos), pos)
    ensures Matched(src, pos, Match(sp.matchLength, sp.matchPosition))
    ensures Coder(sp.trees, sp.Text(), Match(sp.matchLength, sp.matchPosition)) ==
            Registered(Coder(old(sp.trees), sp.Text(), Match(0, old(sp.matchPosition))), r)
  {
    hide Forest, Scene, Matched, InForest, InsertAt, SearchAt;
    InsertStep(sp.trees, sp.Text(), sp.Links(), src, pos, Ahead(src, pos));
    SearchIsFound(sp.trees, sp.Text(), sp.Links(), src, pos, sp.matchPosition);
    sp.InsertNode(r);
  }

  /** Deletes the oldest string and reads the next byte into its first cell and the mirror. */
  method ReadByte(sp: EncodeState, s: Cell, c: byte, ghost src: seq<byte>, ghost pos: nat)
    requires sp.Valid() && s == CellOf(pos + F) && pos + F < |src| && c == src[pos + F]
    requires Scene(sp.trees, sp.Text(), src, pos, F, pos)
    modifies sp, sp.lchild, sp.rchild, sp.parent, sp.textBuf
    ensures sp.Valid()
    ensures Scene(sp.trees, sp.Text(), src, pos + 1, F, pos)
    ensures sp.trees == DeleteAt(old(sp.trees), old(sp.Text()), s) && sp.Text() == Stored(old(sp.Text()), s, c)
    ensures sp.matchPosition == old(sp.matchPosition)
  {
    ghost var ts, text, h := sp.trees, sp.Text(), sp.Links();
    sp.DeleteNode(s);
    hide Forest, InForest, DeleteAt;
    sp.textBuf[s] := c;
    if s < F - 1 {
      sp.textBuf[s + N] := c;
    }
    assert sp.Text() == Stored(text, s, c);
    HoldsRead(text, sp.Text(), src, pos);
    hide Scene, Holds, OnlyCell;
    SlideStep(ts, sp.trees, text, sp.Text(), h, sp.Links(), src, pos, F, F);
  }

  /** Deletes the oldest string when there is nothing left to read. */
  method DropByte(sp: EncodeState, s: Cell, ghost src: seq<byte>, ghost pos: nat, ghost len: nat)
    requires sp.Valid() && s == CellOf(pos + F) && len > 0
    requires Scene(sp.trees, sp.Text(), src, pos, len, pos)
    modifies sp, sp.lchild, sp.rchild, sp.parent
    ensures sp.Valid()
    ensures Scene(sp.trees, sp.Text(), src, pos + 1, len - 1, pos)
    ensures sp.trees == DeleteAt(old(sp.trees), sp.Text(), s) && sp.matchPosition == old(sp.matchPosition)
  {
    ghost var ts, text, h := sp.trees, sp.Text(), sp.Links();
    sp.DeleteNode(s);
    hide Forest, InForest, DeleteAt;
    HoldsFlush(text, src, pos, len);
    hide Scene, Holds, OnlyCell;
    SlideStep(ts, sp.trees, text, text, h, sp.Links(), src, pos, len, len - 1);
  }

  /** One step of the coder, with what the trees and the ring are before the next string is registered. */
  lemma SlidIs(src: seq<byte>, pos: nat, c: Coder, ts: Trees, text: Text)
    requires ts == c.ts && text == c.text
    ensures var s := CellOf(pos + F);
            var ts' := DeleteAt(ts, text, s);
            && (pos + F < |src| ==>
                  forall n ::
                    Registered(Coder(ts', Stored(text, s, src[pos + F]), Match(n, c.m.position)), CellOf(pos + 1))
                    == Slid(src, pos, c))
            && (pos + F >= |src| > pos + 1 ==>
                  forall n ::
                    Registered(Coder(ts', text, Match(n, c.m.position)), CellOf(pos + 1)) == Slid(src, pos, c))
            && (pos + F >= |src| && pos + 1 >= |src| ==> Slid(src, pos, c) == Coder(ts', text, c.m))
  {
  }

  /** One step of the first inner loop. */
  method StepReading(sp: EncodeState, ghost c: Coder, src: seq<byte>, s0: Cell, r0: Cell, p0: nat, ghost pos: nat,
      ghost len: nat, ghost matched: bool)
    returns (s: Cell, r: Cell, p: nat)
    requires Placed(sp, c, src, pos, s0, r0, p0, len, matched) && p0 < |src| && len > 0
    modifies sp, sp.lchild, sp.rchild, sp.parent, sp.textBuf
    ensures p == p0 + 1 && len == F
    ensures Placed(sp, Slid(src, pos, c), src, pos + 1, s, r, p, len, true)
  {
    hide Scene, Matched, Forest, DeleteAt, InsertAt, SearchAt, Stored, Slid, Registered;
    SlideCells(pos);
    SlidIs(src, pos, c, c.ts, c.text);
    ReadByte(sp, s0, src[p0], src, pos);
    p := p0 + 1;
    s := (s0 + 1) % N;
    r := (r0 + 1) % N;
    Register(sp, r, src, pos + 1);
  }

  /** One step of the second inner loop, after the end of the text. */
  method StepFlushing(sp: EncodeState, ghost c: Coder, src: seq<byte>, s0: Cell, r0: Cell, p: nat, len0: nat,
      ghost pos: nat, ghost matched: bool)
    returns (s: Cell, r: Cell, len: nat)
    requires Placed(sp, c, src, pos, s0, r0, p, len0, matched) && p == |src| && len0 > 0
    modifies sp, sp.lchild, sp.rchild, sp.parent, sp.textBuf
    ensures len == len0 - 1
    ensures Placed(sp, Slid(src, pos, c), src, pos + 1, s, r, p, len, true)
  {
    hide Scene, Matched, Forest, DeleteAt, InsertAt, SearchAt, Stored, Slid, Registered;
    SlideCells(pos);
    SlidIs(src, pos, c, c.ts, c.text);
    DropByte(sp, s0, src, pos, len0);
    s := (s0 + 1) % N;
    r := (r0 + 1) % N;
    len := len0 - 1;
    if len != 0 {
      Register(sp, r, src, pos + 1);
    }
  }

  lemma SlidByStep(src: seq<byte>, pos: nat, c: Coder, i: nat)
    ensures SlidBy(src, pos, c, 0) == c
    ensures SlidBy(src, pos, c, i + 1) == Slid(src, pos + i, SlidBy(src, pos, c, i))
  {
  }

  lemma PlacedBounds(sp: EncodeState, c: Coder, src: seq<byte>, pos: nat, s: Cell, r: Cell, p: nat, len: nat,
      matched: bool)
    requires Placed(sp, c, src, pos, s, r, p, len, matched)
    ensures p <= |src|
  {
  }

  /** The first inner loop: up to n steps forward, reading as long as there is text. */
  method SlideReading(sp: EncodeState, ghost c: Coder, src: seq<byte>, n: nat, s0: Cell, r0: Cell, p0: nat, len: nat,
      ghost pos: nat)
    returns (s: Cell, r: Cell, p: nat, i: nat)
    requires Placed(sp, c, src, pos, s0, r0, p0, len, false) && n <= len
    modifies sp, sp.lchild, sp.rchild, sp.parent, sp.textBuf
    ensures i <= n && (i < n ==> p == |src|)
    ensures Placed(sp, SlidBy(src, pos, c, i), src, pos + i, s, r, p, len, i > 0)
  {
    hide *;
    s, r, p, i := s0, r0, p0, 0;
    SlidByStep(src, pos, c, 0);
    PlacedBounds(sp, c, src, pos, s, r, p, len, false);
    while i < n && p < |src|
      invariant p <= |src|
      invariant i <= n && Placed(sp, SlidBy(src, pos, c, i), src, pos + i, s, r, p, len, i > 0)
    {
      SlidByStep(src, pos, c, i);
      s, r, p := StepReading(sp, SlidBy(src, pos, c, i), src, s, r, p, pos + i, len, i > 0);
      i := i + 1;
      PlacedBounds(sp, SlidBy(src, pos, c, i), src, pos + i, s, r, p, len, true);
    }
  }

  /** The second inner loop: the rest of the n steps, with nothing left to read. */
  method SlideFlushing(sp: EncodeState, ghost c: Coder, src: seq<byte>, n: nat, i0: nat, s0: Cell, r0: Cell, p: nat,
      len0: nat, ghost pos: nat)
    returns (s: Cell, r: Cell, len: nat)
    requires n > 0 && i0 <= n && (i0 < n ==> p == |src|) && n - i0 <= len0
    requires Placed(sp, SlidBy(src, pos, c, i0), src, pos + i0, s0, r0, p, len0, i0 > 0)
    modifies sp, sp.lchild, sp.rchild, sp.parent, sp.textBuf
    ensures Placed(sp, SlidBy(src, pos, c, n), src, pos + n, s, r, p, len, true)
  {
    hide *;
    s, r, len := s0, r0, len0;
    var i := i0;
    while i < n
      invariant i0 <= i <= n && n - i <= len
      invariant Placed(sp, SlidBy(src, pos, c, i), src, pos + i, s, r, p, len, i > 0)
    {
      SlidByStep(src, pos, c, i);
      s, r, len := StepFlushing(sp, SlidBy(src, pos, c, i), src, s, r, p, len, pos + i, i > 0);
      i := i + 1;
    }
  }

  lemma SlideCells(pos: nat)
    ensures CellOf(pos + 1) == (CellOf(pos) + 1) % N && CellOf(pos + F + 1) == (CellOf(pos + F) + 1) % N
  {
    CellStep(pos, 1);
    CellStep(pos + F, 1);
  }

  // ---- the routine ----

  lemma NoTreesIs(ts: Trees)
    requires forall c: byte :: ts[c] == Leaf
    ensures ts == NoTrees()
  {
  }

  lemma FirstRingIs(text: Text, src: seq<byte>, len: nat)
    requires FirstText(text, src, len) && len == Min(F, |src|)
    ensures text == FirstRing(src) && forall k :: 0 <= k < REACH ==> text[k] == SPACE
  {
  }

  /** malloc, init_state, the first read and the first F + 1 strings. */
  method Start(src: seq<byte>) returns (sp: EncodeState, s: Cell, r: Cell, p: nat, len: nat)
    requires src != []
    ensures fresh(sp) && fresh(sp.lchild) && fresh(sp.rchild) && fresh(sp.parent) && fresh(sp.textBuf)
    ensures Placed(sp, Begun(src), src, 0, s, r, p, len, true)
  {
    sp := new EncodeState();
    NoTreesIs(sp.trees);
    FirstTextIs(sp.Text(), src);
    s, r := 0, N - F;
    hide Forest, InForest, InsertAt, SearchAt, Holds, Scene, Matched, NoTrees, FirstRing, Begun, FirstText, Started;
    hide Placed, Ahead, CellOf;
    p, len := LoadFirst(sp, src);
    FirstAhead(src);
    RegisterFirst(sp, r, src, len);
    PlacedFirst(sp, src, len);
  }

  lemma FirstAhead(src: seq<byte>)
    ensures Ahead(src, 0) == Min(F, |src|)
  {
  }

  lemma PlacedFirst(sp: EncodeState, src: seq<byte>, len: nat)
    requires sp.Valid() && src != [] && len == Ahead(src, 0)
    requires Scene(sp.trees, sp.Text(), src, 0, len, 0)
    requires Matched(src, 0, Match(sp.matchLength, sp.matchPosition))
    requires Coder(sp.trees, sp.Text(), Match(sp.matchLength, sp.matchPosition)) == Begun(src)
    ensures Placed(sp, Begun(src), src, 0, 0, N - F, len, len, true)
  {
    hide Scene, Matched, Begun, Forest, CellOf, Ahead;
    FirstAhead(src);
    FirstCells();
  }

  lemma FirstCells()
    ensures CellOf(0) == N - F && CellOf(0 + F) == 0
  {
  }

  lemma FirstTextIs(text: Text, src: seq<byte>)
    requires forall i :: 0 <= i < N + F - 1 ==> text[i] == if i < N - F then SPACE else 0
    ensures FirstText(text, src, 0)
  {
  }

  /** The strings in front of the text and the first one in it. */
  method RegisterFirst(sp: EncodeState, r: Cell, src: seq<byte>, len: nat)
    requires sp.Valid() && r == N - F && src != [] && len == Ahead(src, 0)
    requires Holds(sp.Text(), src, 0, len) && Started(sp.trees, sp.Text(), 0)
    requires sp.trees == NoTrees() && sp.Text() == FirstRing(src) && sp.matchPosition == 0
    requires forall k :: 0 <= k < REACH ==> sp.textBuf[k] == SPACE
    modifies sp, sp.lchild, sp.rchild, sp.parent
    ensures sp.Valid()
    ensures Scene(sp.trees, sp.Text(), src, 0, len, 0)
    ensures Matched(src, 0, Match(sp.matchLength, sp.matchPosition))
    ensures Coder(sp.trees, sp.Text(), Match(sp.matchLength, sp.matchPosition)) == Begun(src)
  {
    hide Forest, InForest, InsertAt, SearchAt, Holds, Scene, Matched, Started, NoTrees, FirstRing, Preceded;
    InsertFirst(sp, r, src);
    StartScene(sp.trees, sp.Text(), sp.Links(), src, len);
    Register(sp, r, src, 0);
  }

  /** Reads up to F bytes into the last F cells of the ring. */
  method LoadFirst(sp: EncodeState, src: seq<byte>) returns (p: nat, len: nat)
    requires sp.Valid() && FirstText(sp.Text(), src, 0) && sp.trees == NoTrees()
    modifies sp.textBuf
    ensures sp.Valid() && p == len == Min(F, |src|)
    ensures sp.Text() == FirstRing(src) && Holds(sp.Text(), src, 0, len) && Started(sp.trees, sp.Text(), 0)
    ensures forall k :: 0 <= k < REACH ==> sp.textBuf[k] == SPACE
  {
    p, len := 0, 0;
    while len < F && p < |src|
      invariant p == len <= F && FirstText(sp.Text(), src, len)
    {
      sp.textBuf[N - F + len] := src[p];
      p := p + 1;
      len := len + 1;
    }
    FirstHolds(sp.Text(), src, len);
    FirstRingIs(sp.Text(), src, len);
    NoneStarted(sp.trees, sp.Text());
    hide FirstText, Holds, Started, FirstRing;
    ForestTextFrame(sp.trees, old(sp.Text()), sp.Text(), sp.Links());
  }

  lemma NoneStarted(ts: Trees, text: Text)
    requires ts == NoTrees()
    ensures Started(ts, text, 0) && forall x: Cell :: !InForest(ts, text, x)
  {
  }

  /** Trees, ring and the position of the last match are those of c. */
  ghost predicate InState(sp: EncodeState, c: Coder)
    reads sp, sp.textBuf
    requires sp.Layout()
  {
    sp.trees == c.ts && sp.Text() == c.text && sp.matchPosition == c.m.position
  }

  lemma PrecededStep(src: seq<byte>, i: nat)
    requires i <= F
    ensures Preceded(src, 0) == Coder(NoTrees(), FirstRing(src), Match(0, 0))
    ensures i < F ==> Preceded(src, i + 1) == Registered(Preceded(src, i), N - F - (i + 1))
  {
  }

  /** Inserts the F strings in front of the text, the nearest first. */
  method InsertFirst(sp: EncodeState, r: Cell, ghost src: seq<byte>)
    requires sp.Valid() && r == N - F && Started(sp.trees, sp.Text(), 0)
    requires sp.trees == NoTrees() && sp.Text() == FirstRing(src) && sp.matchPosition == 0
    requires forall k :: 0 <= k < REACH ==> sp.textBuf[k] == SPACE
    modifies sp, sp.lchild, sp.rchild, sp.parent
    ensures sp.Valid() && Started(sp.trees, sp.Text(), F)
    ensures InState(sp, Preceded(src, F))
  {
    hide Started, Forest, InForest, InsertAt, SearchAt, NoTrees, FirstRing;
    PrecededStep(src, 0);
    for i := 1 to F + 1
      invariant sp.Valid() && Started(sp.trees, sp.Text(), i - 1)
      invariant InState(sp, Preceded(src, i - 1))
    {
      PrecededStep(src, i - 1);
      StartStep(sp.trees, sp.Text(), sp.Links(), i - 1);
      assert CellOf(-i) == r - i;
      sp.InsertNode(r - i);
    }
  }

  /** Cuts the match to what is left of the text and decides between a byte and a pair. */
  method ChooseUnit(sp: EncodeState, ghost c: Coder, r: Cell, len: nat, ghost src: seq<byte>, ghost pos: nat,
      ghost s: Cell, ghost p: nat)
    returns (t: Token)
    requires Placed(sp, c, src, pos, s, r, p, len, true) && len > 0
    modifies sp`matchLength
    ensures Placed(sp, c, src, pos, s, r, p, len, false)
    ensures Chosen(src, pos, c, t)
    ensures Right(src, pos, t) && Greedy(src, pos, t) && sp.matchLength == Span(t) <= len
  {
    CellReadsText(sp.Text(), src, pos, len);
    if sp.matchLength > len {
      sp.matchLength := len;
    }
    if sp.matchLength <= THRESHOLD {
      sp.matchLength := 1;
      t := Literal(sp.textBuf[r]);
    } else {
      t := Pair(sp.matchPosition, sp.matchLength);
    }
  }

  lemma CellReadsText(text: Text, src: seq<byte>, pos: nat, len: nat)
    requires Holds(text, src, pos, len) && len > 0
    ensures text[CellOf(pos)] == src[pos]
  {
    assert CellHolds(text, src, pos);
  }

  /** `sent` went out in full groups, `group` waits in the code buffer. */
  ghost predicate Writing(out: seq<byte>, code: seq<byte>, ptr: nat, mask: nat, sent: seq<Token>, group: seq<Token>) {
    AllWellFormed(sent) && |sent| % 8 == 0 && out == Pack(sent) && Pending(code, ptr, mask, group)
  }

  lemma EmptyPending(code: seq<byte>)
    requires |code| == 17 && code[0] == 0
    ensures Pending(code, 1, 1, [])
  {
    assert Group([]) == [0];
  }

  lemma PackGroup(sent: seq<Token>, group: seq<Token>)
    requires AllWellFormed(sent) && AllWellFormed(group) && |sent| % 8 == 0 && 0 < |group| <= 8
    ensures AllWellFormed(sent + group) && Pack(sent + group) == Pack(sent) + Group(group)
  {
    PackAppend(sent, group);
  }

  /** The mask leaves its byte with the eighth unit. */
  lemma MaskStep(k: nat)
    requires k < 8
    ensures Shl(Shl(1, k), 1) % 256 == if k == 7 then 0 else Shl(1, k + 1)
    ensures k < 7 ==> Shl(1, k + 1) != 0
  {
    ShlMonotone(1, 0, k + 1);
    if k < 7 { ShlMonotone(1, k + 1, 7); }
    assert Shl(1, 7) == 128;
  }

  /** Puts a unit and, when that fills the group, sends it and starts the next. */
  method WriteUnit(codeBuf: array<byte>, ptr0: nat, mask0: nat, t: Token,
        dst: array<byte>, dstlen: nat, d0: nat, ghost sent0: seq<Token>, ghost group0: seq<Token>)
    returns (ptr: nat, mask: nat, d: nat, ok: bool, ghost sent: seq<Token>, ghost group: seq<Token>)
    requires codeBuf != dst && d0 <= dstlen <= dst.Length && WellFormed(t)
    requires Writing(dst[..d0], codeBuf[..], ptr0, mask0, sent0, group0)
    modifies codeBuf, dst
    ensures sent + group == sent0 + group0 + [t]
    ensures ok ==> d <= dstlen && Writing(dst[..d], codeBuf[..], ptr, mask, sent, group)
    ensures !ok ==> AllWellFormed(sent) && |sent| % 8 == 0 && group == [] && |Pack(sent)| > dstlen
    ensures forall x :: dstlen <= x < dst.Length ==> dst[x] == old(dst[x])
  {
    hide Pack, Group, AllWellFormed;
    d, ok := d0, true;
    ptr := PutUnit(codeBuf, ptr0, mask0, t, group0);
    MaskStep(|group0|);
    sent, group := sent0, group0 + [t];
    mask := Shl(mask0, 1) % 256;
    if mask == 0 {
      PackGroup(sent, group);
      sent, group := sent + group, [];
      d, ok := Send(codeBuf, ptr, dst, dstlen, d0);
      codeBuf[0] := 0;
      ptr, mask := 1, 1;
      EmptyPending(codeBuf[..]);
    }
  }

  /** Sends the last, partial group. */
  method Finish(codeBuf: array<byte>, ptr: nat, dst: array<byte>, dstlen: nat, d0: nat,
        ghost mask: nat, ghost sent: seq<Token>, ghost group: seq<Token>)
    returns (d: nat, ok: bool)
    requires codeBuf != dst && d0 <= dstlen <= dst.Length
    requires Writing(dst[..d0], codeBuf[..], ptr, mask, sent, group)
    modifies dst
    ensures AllWellFormed(sent + group)
    ensures ok <==> |Pack(sent + group)| <= dstlen
    ensures ok ==> d <= dstlen && dst[..d] == Pack(sent + group)
    ensures forall x :: dstlen <= x < dst.Length ==> dst[x] == old(dst[x])
  {
    d, ok := d0, true;
    if ptr > 1 {
      PackGroup(sent, group);
      d, ok := Send(codeBuf, ptr, dst, dstlen, d0);
    } else {
      assert sent + group == sent;
    }
  }

  /** What has been written so far does not fit, so the whole does not. */
  lemma TooLong(sent: seq<Token>, rest: seq<Token>, dstlen: nat)
    requires AllWellFormed(sent) && AllWellFormed(rest) && |sent| % 8 == 0 && |Pack(sent)| > dstlen
    ensures AllWellFormed(sent + rest) && |Pack(sent + rest)| > dstlen
  {
    PackAppend(sent, rest);
  }

  lemma GiveUp(src: seq<byte>, sent: seq<Token>, pos: nat, dstlen: nat) returns (all: seq<Token>)
    requires pos <= |src| && LeadsTo(src, sent + [], pos)
    requires AllWellFormed(sent) && |sent| % 8 == 0 && |Pack(sent)| > dstlen
    ensures Encodes(src, 0, all) && AllWellFormed(all) && |Pack(all)| > dstlen
  {
    assert sent + [] == sent;
    var rest := Complete(src, pos);
    all := sent + rest;
    EncodesIsWellFormed(src, pos, rest);
    TooLong(sent, rest, dstlen);
  }

  lemma WritingStart(out: seq<byte>, code: seq<byte>)
    requires out == [] && Pending(code, 1, 1, [])
    ensures Writing(out, code, 1, 1, [], [])
  {
  }

  lemma PlacedAtEnd(sp: EncodeState, c: Coder, src: seq<byte>, pos: nat, s: Cell, r: Cell, p: nat, len: nat)
    requires Placed(sp, c, src, pos, s, r, p, len, true)
    ensures pos <= |src| && (len == 0 ==> pos == |src|)
  {
  }

  /** The main loop, from the first unit to the last. */
  method EncodeAll(sp: EncodeState, src: seq<byte>, s0: Cell, r0: Cell, p0: nat, len0: nat, codeBuf: array<byte>,
        dst: array<byte>, dstlen: nat)
    returns (ok: bool, d: nat, ptr: nat, mask: nat, ghost sent: seq<Token>, ghost group: seq<Token>)
    requires Placed(sp, Begun(src), src, 0, s0, r0, p0, len0, true) && len0 > 0
    requires codeBuf != dst && codeBuf != sp.textBuf && dst != sp.textBuf && dstlen <= dst.Length
    requires Pending(codeBuf[..], 1, 1, [])
    modifies sp, sp.lchild, sp.rchild, sp.parent, sp.textBuf, codeBuf, dst
    ensures ok ==> d <= dstlen && Writing(dst[..d], codeBuf[..], ptr, mask, sent, group)
    ensures ok ==> Encodes(src, 0, sent + group) && Coded(src, 0, Begun(src), sent + group)
    ensures !ok ==> Encodes(src, 0, sent) && AllWellFormed(sent) && |Pack(sent)| > dstlen
    ensures forall x :: dstlen <= x < dst.Length ==> dst[x] == old(dst[x])
  {
    hide Placed, Writing, Pending, Pack, AllWellFormed, Encodes, Right, Greedy, LeadsTo, WellFormed;
    hide CodesOn, Coded, Chosen, SlidBy, Begun;
    var s, r, p, len := s0, r0, p0, len0;
    ptr, mask, d, ok := 1, 1, 0, true;
    sent, group := [], [];
    ghost var pos := 0;
    ghost var c := Begun(src);
    LeadsToStart(src);
    CodesOnStart(src);
    WritingStart(dst[..0], codeBuf[..]);
    PlacedAtEnd(sp, c, src, 0, s, r, p, len);
    assert sent + group == [];
    while len > 0
      invariant Placed(sp, c, src, pos, s, r, p, len, true)
      invariant d <= dstlen && Writing(dst[..d], codeBuf[..], ptr, mask, sent, group)
      invariant LeadsTo(src, sent + group, pos) && CodesOn(src, sent + group, pos, c)
      invariant forall x :: dstlen <= x < dst.Length ==> dst[x] == old(dst[x])
      invariant pos <= |src| && (len == 0 ==> pos == |src|)
      decreases |src| - pos
    {
      ghost var done := sent + group;
      var t := ChooseUnit(sp, c, r, len, src, pos, s, p);
      LeadsToNext(src, done, pos, t);
      CodesOnNext(src, done, pos, c, t);
      ptr, mask, d, ok, sent, group := WriteUnit(codeBuf, ptr, mask, t, dst, dstlen, d, sent, group);
      if !ok {
        sent := GiveUp(src, sent, pos + Span(t), dstlen);
        return;
      }
      var n, i := sp.matchLength, 0;
      s, r, p, i := SlideReading(sp, c, src, n, s, r, p, len, pos);
      s, r, len := SlideFlushing(sp, c, src, n, i, s, r, p, len, pos);
      c := SlidBy(src, pos, c, n);
      pos := pos + n;
      PlacedAtEnd(sp, c, src, pos, s, r, p, len);
    }
    LeadsToEnd(src, sent + group);
    CodesOnEnd(src, sent + group, c);
  }

  /**
   * Compresses src into the first dstlen bytes of dst. The result is null when the text is empty or
   * its coding does not fit, else the number of bytes written. `toks` is the encoding chosen, which the
   * text determines.
   */
  method CompressLzss(dst: array<byte>, dstlen: nat, src: seq<byte>)
    returns (res: Option<nat>, ghost toks: seq<Token>)
    requires dstlen <= dst.Length
    modifies dst
    ensures Encodes(src, 0, toks) && AllWellFormed(toks)
    ensures res == if src == [] || |Pack(toks)| > dstlen then None else Some(|Pack(toks)|)
    ensures res.Some? ==> dst[..res.value] == Pack(toks) && Coded(src, 0, Begun(src), toks)
    ensures forall x :: dstlen <= x < dst.Length ==> dst[x] == old(dst[x])
  {
    if src == [] {
      toks := [];
      return None, toks;
    }
    hide Placed, Writing, Pending, Pack, AllWellFormed, Encodes, Coded, Begun;
    var codeBuf := new byte[17](_ => 0);
    EmptyPending(codeBuf[..]);
    var sp, s, r, p, len := Start(src);
    PlacedNotDone(sp, Begun(src), src, s, r, p, len);
    var ok, d, ptr, mask;
    ghost var sent, group;
    ok, d, ptr, mask, sent, group := EncodeAll(sp, src, s, r, p, len, codeBuf, dst, dstlen);
    if !ok {
      return None, sent;
    }
    toks := sent + group;
    d, ok := Finish(codeBuf, ptr, dst, dstlen, d, mask, sent, group);
    res := if ok then Some(d) else None;
  }

  lemma PlacedNotDone(sp: EncodeState, c: Coder, src: seq<byte>, s: Cell, r: Cell, p: nat, len: nat)
    requires Placed(sp, c, src, 0, s, r, p, len, true) && src != []
    ensures len > 0
  {
  }
}
