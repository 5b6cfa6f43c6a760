/** The window of compress_lzss: what ring and trees hold, and what the tree search therefore finds. */
module LzssMatching {
  import opened Common
  import opened LzssFormat
  import opened LzssKeys
  import opened LzssTree
  import opened LzssLinks
  import opened LzssForest
  import opened LzssWindow

  /** The cell of text position a holds its byte, and so does the mirror if a is in the text. */
  ghost predicate CellHolds(text: Text, src: seq<byte>, a: int)
    requires a < |src|
  {
    var p := CellOf(a);
    text[p] == At(src, a) && (a >= 0 && p < F - 1 ==> text[p + N] == At(src, a))
  }

  /** The ring and, for text bytes, its mirror hold the window behind pos and len bytes from pos on. */
  ghost predicate Holds(text: Text, src: seq<byte>, pos: nat, len: nat) {
    && len <= F && pos + len <= |src|
    && forall a :: pos - REACH <= a < pos + len ==> CellHolds(text, src, a)
  }

  function Spaces(): (s: seq<byte>)
    ensures |s| == F && forall i :: 0 <= i < F ==> s[i] == SPACE
  {
    seq(F, _ => SPACE)
  }

  /** The key that starts at text position a. */
  function KeyAt(text: Text, a: int): (k: seq<byte>)
    ensures |k| == F
  {
    Key(text, CellOf(a))
  }

  /** Some node from a on (and no later than last) carries a's key. */
  ghost predicate Direct(ts: Trees, text: Text, a: int, last: int) {
    exists b :: a <= b <= last && InForest(ts, text, CellOf(b)) && KeyAt(text, b) == KeyAt(text, a)
  }

  /** a's key is F spaces, before the text but after -F: its node is -F, as long as that is in the window. */
  ghost predicate Anchored(ts: Trees, text: Text, pos: int, a: int) {
    && -F < a < 0 && KeyAt(text, a) == Spaces()
    && (pos - REACH <= -F ==> InForest(ts, text, CellOf(-F)))
  }

  /** The trees hold the window of pos up to position last, which is pos, or pos - 1 before insertion. */
  ghost predicate Scene(ts: Trees, text: Text, src: seq<byte>, pos: nat, len: nat, last: int) {
    && Holds(text, src, pos, len)
    && (forall k: Cell :: InForest(ts, text, k) ==> pos - last <= Dist(pos, k) <= REACH)
    && (forall a :: pos - REACH <= a <= last ==> Direct(ts, text, a, last) || Anchored(ts, text, pos, a))
    && (forall a :: pos - REACH <= a && -F < a < 0 && KeyAt(text, a) == Spaces() ==> !InForest(ts, text, CellOf(a)))
  }

  // ---- keys and text ----

  /** The cell read is that of the position, or its mirror. */
  lemma MirrorCell(a: int, k: nat)
    requires k < F
    ensures CellOf(a + k) == if CellOf(a) + k < N then CellOf(a) + k else CellOf(a) + k - N
  {
    CellStep(a, k);
  }

  lemma KeyByte(text: Text, src: seq<byte>, a: int, k: nat)
    requires k < F && a + k < |src| && CellHolds(text, src, a + k) && (CellOf(a) + k >= N ==> a + k >= 0)
    ensures KeyAt(text, a)[k] == At(src, a + k)
  {
    MirrorCell(a, k);
    hide CellOf;
  }

  /** In front of the text no key reaches the mirror. */
  lemma NoMirrorBefore(pos: nat, a: int, k: nat)
    requires pos - REACH <= a && k < F && a + k < 0
    ensures CellOf(a) + k < N
  {
  }

  /** Up to the end of what has been read, the key of a window position is the text from there on. */
  lemma KeyReadsText(text: Text, src: seq<byte>, pos: nat, len: nat, a: int, m: nat)
    requires Holds(text, src, pos, len) && pos - REACH <= a <= pos
    requires m <= F && a + m <= pos + len
    ensures KeyAt(text, a)[..m] == Slice(src, a, m)
  {
    hide CellOf, CellHolds, KeyAt;
    forall k | 0 <= k < m ensures KeyAt(text, a)[k] == At(src, a + k) {
      assert CellHolds(text, src, a + k);
      if a + k < 0 { NoMirrorBefore(pos, a, k); }
      KeyByte(text, src, a, k);
    }
  }

  /** Comparing with the key at pos is comparing texts, as far as there is text. */
  lemma KeyMatch(text: Text, src: seq<byte>, pos: nat, e: nat)
    requires pos <= |src| && Holds(text, src, pos, Ahead(src, pos)) && 1 <= e <= REACH
    ensures MatchAt(src, pos, e) == Min(Lcp(KeyAt(text, pos), KeyAt(text, pos - e)), Ahead(src, pos))
  {
    var len := Ahead(src, pos);
    KeyReadsText(text, src, pos, len, pos - e, len);
    KeyReadsText(text, src, pos, len, pos, len);
    LcpCut(KeyAt(text, pos), KeyAt(text, pos - e), len);
    LcpSymmetric(KeyAt(text, pos)[..len], KeyAt(text, pos - e)[..len]);
  }

  /** text' differs from text at most in the cell that pos + F goes to, and in its mirror. */
  ghost predicate OnlyCell(text: Text, text': Text, pos: nat) {
    forall i :: 0 <= i < N + F - 1 && i % N != CellOf(pos + F) ==> text'[i] == text[i]
  }

  /** Writing there touches no key of the new window. */
  lemma KeyUntouched(text: Text, text': Text, pos: nat, x: Cell)
    requires OnlyCell(text, text', pos) && Dist(pos, x) < REACH
    ensures Key(text', x) == Key(text, x)
  {
    forall k | 0 <= k < F ensures Key(text', x)[k] == Key(text, x)[k] {
      NotOverwritten(pos, x, k);
    }
  }

  lemma NotOverwritten(pos: nat, x: Cell, k: nat)
    requires Dist(pos, x) < REACH && k < F
    ensures (x + k) % N != CellOf(pos + F)
  {
    var d := Dist(pos, x);
    CellOfDist(pos, x);
    CellStep(pos - d, k);
    CellsDiffer(pos - d + k, pos + F);
  }

  // ---- membership after insertion and deletion ----

  lemma InsertMembers(ts: Trees, text: Text, h: Links, r: Cell, x: Cell)
    requires Forest(ts, text, h)
    ensures InForest(InsertAt(ts, text, r), text, x) <==>
            x == r || (InForest(ts, text, x) && Key(text, x) != Key(text, r))
  {
    assert TreeOk(ts[text[r]], text[r], text, h);
    InsertKeepsOrder(ts[text[r]], text, r);
    assert Key(text, x)[0] == text[x] && Key(text, r)[0] == text[r];
  }

  lemma DeleteMembers(ts: Trees, text: Text, h: Links, p: Cell, x: Cell)
    requires Forest(ts, text, h)
    ensures InForest(DeleteAt(ts, text, p), text, x) <==> InForest(ts, text, x) && x != p
  {
    assert TreeOk(ts[text[p]], text[p], text, h);
    DeleteKeepsOrder(ts[text[p]], p, text);
  }

  /** Keys in a tree are distinct. */
  lemma {:induction false} SameKeySameNode(t: Tree, text: Text, x: Cell, y: Cell)
    requires Ordered(t, text) && x in Nodes(t) && y in Nodes(t) && Key(text, x) == Key(text, y)
    ensures x == y
  {
    LessTotal(Key(text, x), Key(text, x));
    if x != y {
      if x in Nodes(t.left) && y in Nodes(t.left) { SameKeySameNode(t.left, text, x, y); }
      else if x in Nodes(t.right) && y in Nodes(t.right) { SameKeySameNode(t.right, text, x, y); }
      else { OppositeSides(t, text, x, y); }
    }
  }

  lemma OppositeSides(t: Tree, text: Text, x: Cell, y: Cell)
    requires Ordered(t, text) && x in Nodes(t) && y in Nodes(t) && x != y
    requires !(x in Nodes(t.left) && y in Nodes(t.left)) && !(x in Nodes(t.right) && y in Nodes(t.right))
    ensures Less(Key(text, x), Key(text, y)) || Less(Key(text, y), Key(text, x))
  {
    if x != t.cell && y != t.cell {
      if x in Nodes(t.left) { LessSqueeze(Key(text, x), Key(text, t.cell), Key(text, y)); }
      else { LessSqueeze(Key(text, y), Key(text, t.cell), Key(text, x)); }
    }
  }

  // ---- the steps ----

  lemma OldestIsSpaces(text: Text, src: seq<byte>, pos: nat, len: nat)
    requires Holds(text, src, pos, len) && pos - REACH <= -F
    ensures KeyAt(text, -F) == Spaces()
  {
    KeyReadsText(text, src, pos, len, -F, F);
    assert KeyAt(text, -F)[..F] == KeyAt(text, -F);
  }

  /** Inserting the string at pos. */
  lemma InsertStep(ts: Trees, text: Text, h: Links, src: seq<byte>, pos: nat, len: nat)
    requires Forest(ts, text, h) && Scene(ts, text, src, pos, len, pos - 1)
    ensures !InForest(ts, text, CellOf(pos))
    ensures Scene(InsertAt(ts, text, CellOf(pos)), text, src, pos, len, pos)
  {
    var r := CellOf(pos);
    var ts' := InsertAt(ts, text, r);
    DistOfCell(pos, 0);
    forall k: Cell | InForest(ts', text, k) ensures 0 <= Dist(pos, k) <= REACH {
      InsertMembers(ts, text, h, r, k);
    }
    forall a | pos - REACH <= a <= pos
      ensures Direct(ts', text, a, pos) || Anchored(ts', text, pos, a)
    {
      InsertStands(ts, text, h, src, pos, len, a);
    }
    forall a | pos - REACH <= a && -F < a < 0 && KeyAt(text, a) == Spaces()
      ensures !InForest(ts', text, CellOf(a))
    {
      InsertMembers(ts, text, h, r, CellOf(a));
      CellsDiffer(a, pos);
    }
  }

  lemma InsertStands(ts: Trees, text: Text, h: Links, src: seq<byte>, pos: nat, len: nat, a: int)
    requires Forest(ts, text, h) && Holds(text, src, pos, len) && pos - REACH <= a <= pos
    requires a < pos ==> Direct(ts, text, a, pos - 1) || Anchored(ts, text, pos, a)
    ensures var ts' := InsertAt(ts, text, CellOf(pos));
            Direct(ts', text, a, pos) || Anchored(ts', text, pos, a)
  {
    var r := CellOf(pos);
    var ts' := InsertAt(ts, text, r);
    InsertMembers(ts, text, h, r, r);
    if KeyAt(text, a) != KeyAt(text, pos) {
      if Direct(ts, text, a, pos - 1) {
        var b :| a <= b <= pos - 1 && InForest(ts, text, CellOf(b)) && KeyAt(text, b) == KeyAt(text, a);
        InsertMembers(ts, text, h, r, CellOf(b));
        assert Direct(ts', text, a, pos);
      } else {
        InsertMembers(ts, text, h, r, CellOf(-F));
        if pos - REACH <= -F { OldestIsSpaces(text, src, pos, len); }
      }
    }
  }

  /** The cells of the next window are neither far away nor the one that is overwritten. */
  lemma WindowCell(pos: nat, a: int)
    requires pos - REACH < a <= pos
    ensures Dist(pos, CellOf(a)) == pos - a < REACH && CellOf(a) != CellOf(pos + F)
  {
    DistOfCell(pos, pos - a);
    CellsDiffer(a, pos + F);
  }

  /** A cell other than the overwritten one is a step further away afterwards. */
  lemma FurtherAway(pos: nat, x: Cell)
    requires Dist(pos, x) <= REACH && x != CellOf(pos + F)
    ensures Dist(pos, x) < REACH && Dist(pos + 1, x) == Dist(pos, x) + 1
  {
    CellOfDist(pos, x);
    CellAround(pos - REACH);
  }

  /** Deleting the oldest string (h' are the links afterwards) and overwriting its first cell, or leaving it. */
  lemma SlideStep(ts: Trees, ts': Trees, text: Text, text': Text, h: Links, h': Links,
      src: seq<byte>, pos: nat, len: nat, len': nat)
    requires Forest(ts, text, h) && Scene(ts, text, src, pos, len, pos)
    requires ts' == DeleteAt(ts, text, CellOf(pos + F)) && Forest(ts', text, h')
    requires OnlyCell(text, text', pos) && Holds(text', src, pos + 1, len')
    ensures Forest(ts', text', h')
    ensures Scene(ts', text', src, pos + 1, len', pos)
  {
    forall x: Cell | InForest(ts', text, x)
      ensures Key(text, x) == Key(text', x) && 1 <= Dist(pos + 1, x) <= REACH
    {
      DeleteMembers(ts, text, h, CellOf(pos + F), x);
      FurtherAway(pos, x);
      KeyUntouched(text, text', pos, x);
    }
    ForestTextFrame(ts', text, text', h');
    hide Forest, DeleteAt, InForest, Holds, OnlyCell, CellOf, Dist, Key, KeyAt, Direct, Anchored;
    forall a | pos + 1 - REACH <= a <= pos
      ensures Direct(ts', text', a, pos) || Anchored(ts', text', pos + 1, a)
    {
      SlideStands(ts, ts', text, text', h, pos, a);
    }
    forall a | pos + 1 - REACH <= a && -F < a < 0 && KeyAt(text', a) == Spaces()
      ensures !InForest(ts', text', CellOf(a))
    {
      SlideKey(ts, ts', text, text', h, pos, a);
    }
  }

  /** What a window position keeps: its key, and whether it is a node. */
  lemma SlideKey(ts: Trees, ts': Trees, text: Text, text': Text, h: Links, pos: nat, a: int)
    requires Forest(ts, text, h) && ts' == DeleteAt(ts, text, CellOf(pos + F))
    requires forall x: Cell :: InForest(ts', text', x) <==> InForest(ts', text, x)
    requires OnlyCell(text, text', pos) && pos - REACH < a <= pos
    ensures KeyAt(text', a) == KeyAt(text, a)
    ensures InForest(ts', text', CellOf(a)) <==> InForest(ts, text, CellOf(a))
  {
    WindowCell(pos, a);
    KeyUntouched(text, text', pos, CellOf(a));
    DeleteMembers(ts, text, h, CellOf(pos + F), CellOf(a));
  }

  lemma SlideStands(ts: Trees, ts': Trees, text: Text, text': Text, h: Links, pos: nat, a: int)
    requires Forest(ts, text, h) && ts' == DeleteAt(ts, text, CellOf(pos + F))
    requires forall x: Cell :: InForest(ts', text', x) <==> InForest(ts', text, x)
    requires OnlyCell(text, text', pos) && pos - REACH < a <= pos
    requires Direct(ts, text, a, pos) || Anchored(ts, text, pos, a)
    ensures Direct(ts', text', a, pos) || Anchored(ts', text', pos + 1, a)
  {
    hide Forest, DeleteAt, InForest, OnlyCell, CellOf, KeyAt;
    SlideKey(ts, ts', text, text', h, pos, a);
    if Direct(ts, text, a, pos) {
      var b :| a <= b <= pos && InForest(ts, text, CellOf(b)) && KeyAt(text, b) == KeyAt(text, a);
      SlideKey(ts, ts', text, text', h, pos, b);
      assert Direct(ts', text', a, pos);
    } else if pos + 1 - REACH <= -F {
      SlideKey(ts, ts', text, text', h, pos, -F);
    }
  }

  // ---- what the search finds ----

  /** m is the outcome of the search for the key at pos among all nodes. */
  ghost predicate BestOf(ts: Trees, text: Text, pos: nat, m: Match) {
    && (forall x: Cell :: InForest(ts, text, x) ==> Lcp(KeyAt(text, pos), Key(text, x)) <= m.length)
    && (m.length > 0 ==> 0 <= m.position < N && InForest(ts, text, m.position)
                         && Lcp(KeyAt(text, pos), Key(text, m.position)) == m.length)
  }

  lemma SearchIsBest(ts: Trees, text: Text, h: Links, pos: nat, position: int)
    requires Forest(ts, text, h)
    ensures BestOf(ts, text, pos, SearchAt(ts, text, CellOf(pos), position))
  {
    var r := CellOf(pos);
    assert TreeOk(ts[text[r]], text[r], text, h);
    SearchFindsLongest(ts[text[r]], text, r, Match(0, position));
    forall x: Cell | InForest(ts, text, x) && text[x] != text[r] ensures Lcp(Key(text, r), Key(text, x)) == 0 {
      assert Key(text, r)[0] != Key(text, x)[0];
    }
  }

  /** The search takes in every position that a node speaks for. */
  lemma DirectBound(ts: Trees, text: Text, src: seq<byte>, pos: nat, m: Match, e: nat)
    requires pos <= |src| && Holds(text, src, pos, Ahead(src, pos)) && BestOf(ts, text, pos, m) && 1 <= e <= REACH
    requires exists x: Cell :: InForest(ts, text, x) && Key(text, x) == KeyAt(text, pos - e)
    ensures MatchAt(src, pos, e) <= m.length
  {
    KeyMatch(text, src, pos, e);
  }

  lemma DirectBoundAt(ts: Trees, text: Text, src: seq<byte>, pos: nat, m: Match, e: nat)
    requires pos <= |src| && Holds(text, src, pos, Ahead(src, pos)) && BestOf(ts, text, pos, m) && 1 <= e <= REACH
    requires Direct(ts, text, pos - e, pos - 1)
    ensures MatchAt(src, pos, e) <= m.length
  {
    var b :| pos - e <= b <= pos - 1 && InForest(ts, text, CellOf(b)) && KeyAt(text, b) == KeyAt(text, pos - e);
    DirectBound(ts, text, src, pos, m, e);
  }

  /** The match found is there in the text, as long as the search says. */
  lemma BestIsThere(ts: Trees, text: Text, src: seq<byte>, pos: nat, m: Match)
    requires pos <= |src| && Scene(ts, text, src, pos, Ahead(src, pos), pos - 1) && BestOf(ts, text, pos, m)
    requires m.length > 0
    ensures 0 <= m.position < N && 1 <= Dist(pos, m.position) <= REACH
    ensures MatchAt(src, pos, Dist(pos, m.position)) == Min(m.length, Ahead(src, pos))
  {
    CellOfDist(pos, m.position);
    KeyMatch(text, src, pos, Dist(pos, m.position));
  }

  lemma MatchIsSameBack(src: seq<byte>, pos: nat, e: nat, n: nat)
    requires pos <= |src| && 1 <= e <= REACH && n <= MatchAt(src, pos, e)
    ensures pos + n <= |src| && SameBack(src, pos, e, n)
  {
    var len := Ahead(src, pos);
    var x, y := Slice(src, pos - e, len), Slice(src, pos, len);
    forall b | pos <= b < pos + n ensures src[b] == At(src, b - e) {
      assert x[b - pos] == y[b - pos];
    }
  }

  // ---- strings of spaces ----

  /** A key of F spaces is a run of spaces in the text (or before it), and the other way round. */
  lemma SpaceKey(text: Text, src: seq<byte>, pos: nat, a: int)
    requires pos <= |src| && Holds(text, src, pos, Ahead(src, pos)) && pos - REACH <= a <= pos && a + F <= |src|
    ensures KeyAt(text, a) == Spaces() <==> forall k :: 0 <= k < a + F && a <= k ==> src[k] == SPACE
  {
    KeyReadsText(text, src, pos, Ahead(src, pos), a, F);
    assert KeyAt(text, a)[..F] == KeyAt(text, a);
    var s := Slice(src, a, F);
    if forall k :: 0 <= k < a + F && a <= k ==> src[k] == SPACE {
      forall k | 0 <= k < F ensures s[k] == SPACE { assert s[k] == At(src, a + k); }
    }
    if s == Spaces() {
      forall k | 0 <= k < a + F && a <= k ensures src[k] == SPACE { assert s[k - a] == SPACE; }
    }
  }

  /** The number of spaces a text begins with, when that is fewer than F. */
  lemma LeadingSpaces(src: seq<byte>) returns (m: nat)
    requires |src| >= F && !Run(src, 0)
    ensures m < F && SpacesIn(src, 0, m) && src[m] != SPACE
  {
    m := 0;
    while src[m] == SPACE
      invariant m < F && SpacesIn(src, 0, m)
      decreases F - m
    {
      m := m + 1;
      if m == F { assert false; }
    }
  }

  /** After a few leading spaces, F - 1 spaces are still found: the first string that is not all spaces. */
  lemma NearlySpaces(ts: Trees, text: Text, src: seq<byte>, pos: nat, m: Match, w: nat)
    requires pos <= |src| && Scene(ts, text, src, pos, Ahead(src, pos), pos - 1) && BestOf(ts, text, pos, m)
    requires REACH - F < pos < REACH && SpacesIn(src, 0, pos - (REACH - F)) && !Run(src, 0)
    requires w < F && w <= Ahead(src, pos) && SpacesIn(src, pos, pos + w)
    ensures w <= m.length
  {
    var n := LeadingSpaces(src);
    var a := n - (F - 1);
    assert n >= pos - (REACH - F);
    SpaceKey(text, src, pos, a);
    assert !Anchored(ts, text, pos, a);
    DirectBoundAt(ts, text, src, pos, m, pos - a);
    var len := Ahead(src, pos);
    var x, y := Slice(src, a, len), Slice(src, pos, len);
    forall k | 0 <= k < w ensures x[k] == y[k] {
      assert x[k] == At(src, a + k) && y[k] == src[pos + k];
    }
    LcpAtLeast(x, y, w);
  }

  /** A run of spaces in the text speaks for every earlier string of spaces. */
  lemma RunSpeaks(ts: Trees, text: Text, src: seq<byte>, pos: nat, a: int, b: nat)
    requires pos < |src| && Scene(ts, text, src, pos, Ahead(src, pos), pos - 1)
    requires KeyAt(text, a) == Spaces() && a <= b < pos < REACH && Run(src, b)
    ensures Direct(ts, text, a, pos - 1)
  {
    SpaceKey(text, src, pos, b);
    assert Direct(ts, text, b, pos - 1);
    var c :| b <= c <= pos - 1 && InForest(ts, text, CellOf(c)) && KeyAt(text, c) == KeyAt(text, b);
  }

  /** A position that no node speaks for, once -F has left: the text began with the spaces in question. */
  lemma LostPosition(ts: Trees, text: Text, src: seq<byte>, pos: nat, a: int)
    requires pos < |src| && Scene(ts, text, src, pos, Ahead(src, pos), pos - 1)
    requires pos - REACH <= a < pos && pos - REACH > -F
    requires !Direct(ts, text, a, pos - 1)
    ensures -F < a < 0 && KeyAt(text, a) == Spaces() && pos < REACH && SpacesIn(src, 0, pos - (REACH - F))
    ensures forall b :: 0 <= b < pos ==> !Run(src, b)
  {
    SpaceKey(text, src, pos, a);
    forall b | 0 <= b < pos ensures !Run(src, b) {
      if Run(src, b) { RunSpeaks(ts, text, src, pos, a, b); }
    }
  }

  /** The encoder is right about pos: as much as it will use of the match is there, and is what it finds. */
  ghost predicate Matched(src: seq<byte>, pos: nat, m: Match) {
    && pos < |src|
    && Min(m.length, Ahead(src, pos)) == Found(src, pos)
    && (m.length > 0 ==>
          && 0 <= m.position < N && 1 <= Dist(pos, m.position) <= REACH
          && SameBack(src, pos, Dist(pos, m.position), Min(m.length, Ahead(src, pos))))
  }

  /** Outside the blind spot no distance beats the tree search. */
  lemma NoDistanceBeats(ts: Trees, text: Text, src: seq<byte>, pos: nat, m: Match, e: nat)
    requires pos < |src| && Scene(ts, text, src, pos, Ahead(src, pos), pos - 1) && BestOf(ts, text, pos, m)
    requires !Blind(src, pos) && 1 <= e <= REACH
    ensures MatchAt(src, pos, e) <= m.length
  {
    var a := pos - e;
    if Direct(ts, text, a, pos - 1) {
      DirectBoundAt(ts, text, src, pos, m, e);
    } else if pos - REACH <= -F {
      OldestIsSpaces(text, src, pos, Ahead(src, pos));
      DirectBound(ts, text, src, pos, m, e);
    } else {
      LostPosition(ts, text, src, pos, a);
      MatchOfSpaces(text, src, pos, e);
      NearlySpaces(ts, text, src, pos, m, MatchAt(src, pos, e));
    }
  }

  /** A match with F spaces is a stretch of spaces, shorter than F unless a run begins at pos. */
  lemma MatchOfSpaces(text: Text, src: seq<byte>, pos: nat, e: nat)
    requires pos < |src| && Holds(text, src, pos, Ahead(src, pos)) && 1 <= e <= REACH
    requires KeyAt(text, pos - e) == Spaces() && !Run(src, pos)
    ensures var w := MatchAt(src, pos, e);
            w < F && w <= Ahead(src, pos) && SpacesIn(src, pos, pos + w)
  {
    var len := Ahead(src, pos);
    var w := MatchAt(src, pos, e);
    KeyReadsText(text, src, pos, len, pos - e, len);
    var x, y := Slice(src, pos - e, len), Slice(src, pos, len);
    assert x == Spaces()[..len];
    forall k | pos <= k < pos + w ensures src[k] == SPACE {
      assert x[k - pos] == y[k - pos];
    }
  }

  /** In the blind spot the trees hold F - 1 spaces and no more. */
  lemma BlindSearch(ts: Trees, text: Text, src: seq<byte>, pos: nat, m: Match)
    requires pos < |src| && Scene(ts, text, src, pos, Ahead(src, pos), pos - 1) && BestOf(ts, text, pos, m)
    requires Blind(src, pos)
    ensures m.length == F - 1
  {
    assert !Run(src, 0);
    NearlySpaces(ts, text, src, pos, m, F - 1);
    var kr := KeyAt(text, pos);
    SpaceKey(text, src, pos, pos);
    if m.length >= F {
      LcpFull(kr, Key(text, m.position));
      var a := pos - Dist(pos, m.position);
      CellOfDist(pos, m.position);
      SpaceKey(text, src, pos, a);
      if a >= 0 { assert Run(src, a); }
    }
  }

  /** The tree search finds exactly what the brute-force search finds, but for the blind spot. */
  lemma SearchIsFound(ts: Trees, text: Text, h: Links, src: seq<byte>, pos: nat, position: int)
    requires Forest(ts, text, h)
    requires pos < |src| && Scene(ts, text, src, pos, Ahead(src, pos), pos - 1)
    ensures Matched(src, pos, SearchAt(ts, text, CellOf(pos), position))
  {
    var m := SearchAt(ts, text, CellOf(pos), position);
    var len := Ahead(src, pos);
    SearchIsBest(ts, text, h, pos, position);
    hide Forest, SearchAt, Scene, BestOf, Direct, Holds;
    if m.length > 0 {
      BestIsThere(ts, text, src, pos, m);
      MatchIsSameBack(src, pos, Dist(pos, m.position), Min(m.length, len));
    }
    if Blind(src, pos) {
      BlindSearch(ts, text, src, pos, m);
    } else {
      forall e | 1 <= e <= REACH ensures MatchAt(src, pos, e) <= Min(m.length, len) {
        NoDistanceBeats(ts, text, src, pos, m, e);
      }
      LongestIs(src, pos, Min(m.length, len));
    }
  }

  // ---- the start, and the writes to the ring ----

  /** The ring after init_state and the first read of len bytes. */
  ghost predicate FirstText(text: Text, src: seq<byte>, len: nat) {
    && len <= F && len <= |src|
    && forall i :: 0 <= i < N + F - 1 ==>
         text[i] == if i < REACH then SPACE else if i < REACH + len then src[i - REACH] else 0
  }

  lemma FirstHolds(text: Text, src: seq<byte>, len: nat)
    requires FirstText(text, src, len)
    ensures Holds(text, src, 0, len)
  {
    forall a | -REACH <= a < len ensures CellHolds(text, src, a) {}
  }

  /** The strings at -1 down to -i have been inserted. */
  ghost predicate Started(ts: Trees, text: Text, i: int) {
    && (forall k: Cell :: InForest(ts, text, k) ==> 1 <= Dist(0, k) <= i)
    && (forall a :: -i <= a <= -1 ==> InForest(ts, text, CellOf(a)) || KeyAt(text, a) == Spaces())
    && (i > 0 ==> InForest(ts, text, CellOf(-i)))
  }

  /** A string of the start that repeats an earlier start string can only be F spaces. */
  lemma StartKeysRepeat(text: Text, i: int, j: int)
    requires 1 <= j < i <= F && KeyAt(text, -i) == KeyAt(text, -j)
    requires forall k :: 0 <= k < REACH ==> text[k] == SPACE
    ensures KeyAt(text, -j) == Spaces()
  {
    var u := KeyAt(text, -i);
    hide KeyAt, CellOf;
    for t := 0 to F
      invariant forall k :: 0 <= k < t ==> u[k] == SPACE
    {
      StartKey(text, i, t);
      if t >= i {
        var v := t - (i - j);
        StartKey(text, j, v);
      }
    }
  }

  lemma StartKey(text: Text, i: int, t: nat)
    requires 1 <= i <= F && t < F
    ensures KeyAt(text, -i)[t] == text[REACH - i + t]
  {
    assert CellOf(-i) == REACH - i;
    hide CellOf;
  }

  lemma StartNear(ts: Trees, text: Text, h: Links, i: int, k: Cell)
    requires Forest(ts, text, h) && 0 <= i < F && Started(ts, text, i)
    requires InForest(InsertAt(ts, text, CellOf(-(i + 1))), text, k)
    ensures 1 <= Dist(0, k) <= i + 1
  {
    DistOfCell(0, i + 1);
    hide Forest, InForest, InsertAt, CellOf, Dist, Key, KeyAt, Spaces;
    InsertMembers(ts, text, h, CellOf(-(i + 1)), k);
  }

  lemma StartFresh(ts: Trees, text: Text, i: int)
    requires 0 <= i < F && Started(ts, text, i)
    ensures !InForest(ts, text, CellOf(-(i + 1)))
  {
    DistOfCell(0, i + 1);
    hide InForest, Dist;
  }

  lemma StartStep(ts: Trees, text: Text, h: Links, i: int)
    requires Forest(ts, text, h) && 0 <= i < F && Started(ts, text, i)
    requires forall k :: 0 <= k < REACH ==> text[k] == SPACE
    ensures !InForest(ts, text, CellOf(-(i + 1)))
    ensures Started(InsertAt(ts, text, CellOf(-(i + 1))), text, i + 1)
  {
    var r := CellOf(-(i + 1));
    var ts' := InsertAt(ts, text, r);
    hide Forest, InForest, InsertAt, CellOf, Dist, Key, KeyAt, Spaces, Started;
    StartFresh(ts, text, i);
    InsertMembers(ts, text, h, r, r);
    forall k: Cell | InForest(ts', text, k) ensures 1 <= Dist(0, k) <= i + 1 { StartNear(ts, text, h, i, k); }
    StartKeepsAll(ts, text, h, i);
    StartedNext(ts', text, i + 1);
  }

  lemma StartKeepsAll(ts: Trees, text: Text, h: Links, i: int)
    requires Forest(ts, text, h) && 0 <= i < F && Started(ts, text, i)
    requires forall k :: 0 <= k < REACH ==> text[k] == SPACE
    ensures var ts' := InsertAt(ts, text, CellOf(-(i + 1)));
            forall a :: -(i + 1) < a <= -1 ==> InForest(ts', text, CellOf(a)) || KeyAt(text, a) == Spaces()
  {
    var ts' := InsertAt(ts, text, CellOf(-(i + 1)));
    hide Forest, InForest, InsertAt, CellOf, Dist, Key, KeyAt, Spaces;
    forall a | -(i + 1) < a <= -1 ensures InForest(ts', text, CellOf(a)) || KeyAt(text, a) == Spaces() {
      StartKeeps(ts, text, h, i, a);
    }
  }

  lemma StartedNext(ts: Trees, text: Text, i: int)
    requires i > 0 && InForest(ts, text, CellOf(-i))
    requires forall k: Cell :: InForest(ts, text, k) ==> 1 <= Dist(0, k) <= i
    requires forall a :: -i < a <= -1 ==> InForest(ts, text, CellOf(a)) || KeyAt(text, a) == Spaces()
    ensures Started(ts, text, i)
  {
    hide InForest, CellOf, Dist, KeyAt, Spaces;
  }

  lemma StartKeeps(ts: Trees, text: Text, h: Links, i: int, a: int)
    requires Forest(ts, text, h) && 0 <= i < F && -i <= a <= -1
    requires forall k :: 0 <= k < REACH ==> text[k] == SPACE
    requires InForest(ts, text, CellOf(a)) || KeyAt(text, a) == Spaces()
    ensures InForest(InsertAt(ts, text, CellOf(-(i + 1))), text, CellOf(a)) || KeyAt(text, a) == Spaces()
  {
    InsertMembers(ts, text, h, CellOf(-(i + 1)), CellOf(a));
    if KeyAt(text, a) == KeyAt(text, -(i + 1)) {
      StartKeysRepeat(text, i + 1, -a);
    }
  }

  /** With all F strings in, the scene is set for position 0. */
  lemma StartScene(ts: Trees, text: Text, h: Links, src: seq<byte>, len: nat)
    requires Forest(ts, text, h) && Started(ts, text, F) && Holds(text, src, 0, len)
    ensures Scene(ts, text, src, 0, len, -1)
  {
    OldestIsSpaces(text, src, 0, len);
    forall a | -REACH <= a <= -1 ensures Direct(ts, text, a, -1) || Anchored(ts, text, 0, a) {
      if a <= -F {
        KeyReadsText(text, src, 0, len, a, F);
        assert KeyAt(text, a)[..F] == KeyAt(text, a) == Spaces();
        assert InForest(ts, text, CellOf(-F));
      } else if InForest(ts, text, CellOf(a)) {
        assert Direct(ts, text, a, -1);
      }
    }
    forall a | -F < a < 0 && KeyAt(text, a) == Spaces() ensures !InForest(ts, text, CellOf(a)) {
      if InForest(ts, text, CellOf(a)) { OnlyOldest(ts, text, h, a); }
    }
  }

  lemma OnlyOldest(ts: Trees, text: Text, h: Links, a: int)
    requires Forest(ts, text, h) && InForest(ts, text, CellOf(-F)) && InForest(ts, text, CellOf(a))
    requires -F <= a < 0 && KeyAt(text, a) == Spaces() == KeyAt(text, -F)
    ensures a == -F
  {
    var x, y := CellOf(a), CellOf(-F);
    assert Key(text, x)[0] == Key(text, y)[0] == SPACE;
    assert TreeOk(ts[SPACE], SPACE, text, h);
    SameKeySameNode(ts[SPACE], text, x, y);
    if a != -F { CellsDiffer(-F, a); }
  }

  /** The next byte goes to its cell and, near the start of the ring, to the mirror. */
  lemma HoldsRead(text: Text, text': Text, src: seq<byte>, pos: nat)
    requires Holds(text, src, pos, F) && pos + F < |src|
    requires var (s, c) := (CellOf(pos + F), src[pos + F]);
             text' == (if s < F - 1 then text[s := c][s + N := c] else text[s := c])
    ensures OnlyCell(text, text', pos) && Holds(text', src, pos + 1, F)
  {
    forall a | pos + 1 - REACH <= a < pos + 1 + F ensures CellHolds(text', src, a) {
      if a < pos + F {
        CellsDiffer(a, pos + F);
        assert CellHolds(text, src, a);
      }
    }
  }

  /** At the end of the text nothing is written. */
  lemma HoldsFlush(text: Text, src: seq<byte>, pos: nat, len: nat)
    requires Holds(text, src, pos, len) && len > 0
    ensures OnlyCell(text, text, pos) && Holds(text, src, pos + 1, len - 1)
  {
  }
}
