/** lzadler32 of src/lzss.c against Adler-32 as section 8.2 of RFC 1950 defines it. */
module Adler32 {
  import opened Common
  import opened Bits

  const BASE := 65521
  const NMAX := 5000

  datatype Sums = Sums(s1: nat, s2: nat)

  // ---- the definition: reduce after every byte ----

  function Step(s: Sums, b: byte): Sums {
    var a := (s.s1 + b) % BASE;
    Sums(a, (s.s2 + a) % BASE)
  }

  function Adler(buf: seq<byte>): (s: Sums)
    ensures s.s1 < BASE && s.s2 < BASE
  {
    if buf == [] then Sums(1, 0) else Step(Adler(buf[..|buf| - 1]), buf[|buf| - 1])
  }

  function Checksum(buf: seq<byte>): nat {
    Adler(buf).s2 * 65536 + Adler(buf).s1
  }

  function Total(buf: seq<byte>): nat {
    if buf == [] then 0 else buf[0] + Total(buf[1..])
  }

  /** Every byte weighed by the number of bytes from it to the end. */
  function Weighted(buf: seq<byte>): nat {
    if buf == [] then 0 else |buf| * buf[0] + Weighted(buf[1..])
  }

  lemma {:induction false} SumsAppend(buf: seq<byte>, b: byte)
    ensures Total(buf + [b]) == Total(buf) + b
    ensures Weighted(buf + [b]) == Weighted(buf) + Total(buf) + b
  {
    if buf != [] {
      assert (buf + [b])[1..] == buf[1..] + [b];
      SumsAppend(buf[1..], b);
      assert (|buf| + 1) * buf[0] == |buf| * buf[0] + buf[0];
    }
  }

  /** The two sums without any intermediate reduction. */
  lemma {:induction false} AdlerClosedForm(buf: seq<byte>)
    ensures Adler(buf) == Sums((1 + Total(buf)) % BASE, (|buf| + Weighted(buf)) % BASE)
  {
    if buf != [] {
      var front, b := buf[..|buf| - 1], buf[|buf| - 1];
      assert buf == front + [b];
      AdlerClosedForm(front);
      SumsAppend(front, b);
      assert Adler(buf) == Step(Adler(front), b);
      hide Total, Weighted, Adler;
      ModAdd(1 + Total(front), Adler(front).s1, b);
      ModAdd(|front| + Weighted(front), Adler(front).s2, 1 + Total(front) + b);
    }
  }

  // ---- the code: 32-bit sums, reduced once per chunk ----

  /** `unsigned long` is taken in its narrowest width, 32 bits. */
  function Do1(s: Sums, buf: seq<byte>, i: nat): Sums
    requires i < |buf|
  {
    var a := Add32(s.s1, buf[i]);
    Sums(a, Add32(s.s2, a))
  }

  function Do2(s: Sums, buf: seq<byte>, i: nat): Sums
    requires i + 2 <= |buf|
  {
    Do1(Do1(s, buf, i), buf, i + 1)
  }

  function Do4(s: Sums, buf: seq<byte>, i: nat): Sums
    requires i + 4 <= |buf|
  {
    Do2(Do2(s, buf, i), buf, i + 2)
  }

  function Do8(s: Sums, buf: seq<byte>, i: nat): Sums
    requires i + 8 <= |buf|
  {
    Do4(Do4(s, buf, i), buf, i + 4)
  }

  function Do16(s: Sums, buf: seq<byte>, i: nat): Sums
    requires i + 16 <= |buf|
  {
    Do8(Do8(s, buf, i), buf, i + 8)
  }

  /** The largest s2 after j bytes of a chunk. */
  function Ceiling(j: nat): nat {
    if j == 0 then BASE - 1 else Ceiling(j - 1) + (BASE - 1 + 255 * j)
  }

  /** The closed form that the comment on NMAX is about. */
  lemma {:induction false} CeilingClosed(j: nat)
    ensures 2 * Ceiling(j) == 2 * (BASE - 1) * (j + 1) + 255 * (j * (j + 1))
  {
    if j > 0 {
      CeilingClosed(j - 1);
      assert j * (j + 1) == (j - 1) * j + 2 * j;
    }
  }

  lemma {:induction false} CeilingMonotone(i: nat, j: nat)
    requires i <= j
    ensures Ceiling(i) <= Ceiling(j)
  {
    if i < j { CeilingMonotone(i, j - 1); }
  }

  /** NMAX bytes never overflow 32 bits. */
  lemma NmaxIsSafe(j: nat)
    requires j <= NMAX
    ensures Ceiling(j) <= TWO32 - 1
    ensures BASE - 1 + 255 * j <= TWO32 - 1
  {
    CeilingClosed(NMAX);
    CeilingMonotone(j, NMAX);
  }

  /** The largest chunk for which that holds has 5552 bytes. */
  lemma NmaxCouldBeLarger(j: nat)
    ensures Ceiling(j) <= TWO32 - 1 <==> j <= 5552
  {
    CeilingClosed(5552);
    CeilingClosed(5553);
    if j <= 5552 { CeilingMonotone(j, 5552); } else { CeilingMonotone(5553, j); }
  }

  /** j bytes into a chunk, i bytes into the buffer: exact modulo BASE, and below the ceiling. */
  ghost predicate Tracks(s: Sums, buf: seq<byte>, i: nat, j: nat) {
    && i <= |buf| && j <= NMAX
    && s.s1 % BASE == Adler(buf[..i]).s1 && s.s2 % BASE == Adler(buf[..i]).s2
    && s.s1 <= BASE - 1 + 255 * j && s.s2 <= Ceiling(j)
  }

  lemma ModAdd(x: nat, y: nat, b: nat)
    requires x % BASE == y
    ensures (x + b) % BASE == (y + b % BASE) % BASE == (y + b) % BASE
  {
  }

  lemma Small(x: nat)
    requires x < TWO32
    ensures x % TWO32 == x
  {
  }

  lemma CeilingNext(j: nat)
    ensures Ceiling(j + 1) == Ceiling(j) + (BASE - 1 + 255 * (j + 1))
  {
  }

  lemma AdlerNext(buf: seq<byte>, i: nat)
    requires i < |buf|
    ensures Adler(buf[..i + 1]) == Step(Adler(buf[..i]), buf[i])
  {
    assert buf[..i + 1][..i] == buf[..i];
  }

  /** One unreduced step stays on track. */
  lemma Do1Tracks(s: Sums, buf: seq<byte>, i: nat, j: nat)
    requires Tracks(s, buf, i, j) && i < |buf| && j < NMAX
    ensures Tracks(Do1(s, buf, i), buf, i + 1, j + 1)
  {
    var t := Adler(buf[..i]);
    var a: nat := s.s1 + buf[i];
    AdlerNext(buf, i);
    CeilingNext(j);
    hide Adler, Ceiling;
    NmaxIsSafe(j + 1);
    Small(s.s1 + buf[i]);
    Small(s.s2 + a);
    ModAdd(s.s1, t.s1, buf[i]);
    ModAdd(s.s2, t.s2, a);
  }

  lemma Do2Tracks(s: Sums, buf: seq<byte>, i: nat, j: nat)
    requires Tracks(s, buf, i, j) && i + 2 <= |buf| && j + 2 <= NMAX
    ensures Tracks(Do2(s, buf, i), buf, i + 2, j + 2)
  {
    hide Tracks;
    Do1Tracks(s, buf, i, j);
    Do1Tracks(Do1(s, buf, i), buf, i + 1, j + 1);
  }

  lemma Do4Tracks(s: Sums, buf: seq<byte>, i: nat, j: nat)
    requires Tracks(s, buf, i, j) && i + 4 <= |buf| && j + 4 <= NMAX
    ensures Tracks(Do4(s, buf, i), buf, i + 4, j + 4)
  {
    hide Tracks, Do2;
    Do2Tracks(s, buf, i, j);
    Do2Tracks(Do2(s, buf, i), buf, i + 2, j + 2);
  }

  lemma Do16Tracks(s: Sums, buf: seq<byte>, i: nat, j: nat)
    requires Tracks(s, buf, i, j) && i + 16 <= |buf| && j + 16 <= NMAX
    ensures Tracks(Do16(s, buf, i), buf, i + 16, j + 16)
  {
    hide Tracks, Do4;
    Do4Tracks(s, buf, i, j);
    Do4Tracks(Do4(s, buf, i), buf, i + 4, j + 4);
    Do4Tracks(Do8(s, buf, i), buf, i + 8, j + 8);
    Do4Tracks(Do4(Do8(s, buf, i), buf, i + 8), buf, i + 12, j + 12);
  }

  /** The reduction at the end of a chunk. */
  lemma ReduceTracks(s: Sums, buf: seq<byte>, i: nat, j: nat)
    requires Tracks(s, buf, i, j)
    ensures Tracks(Sums(s.s1 % BASE, s.s2 % BASE), buf, i, 0)
    ensures Sums(s.s1 % BASE, s.s2 % BASE) == Adler(buf[..i])
  {
  }

  /** The packing of the two sums. */
  lemma Combine(s1: nat, s2: nat)
    requires s1 < BASE && s2 < BASE
    ensures Or(Shl(s2, 16), s1) % TWO32 == s2 * 65536 + s1
  {
    hide Or, Shl;
    Shl16(1);
    OrDisjoint(s1, s2, 16);
    Shl16(s2);
  }

  lemma Shl16(x: nat)
    ensures Shl(x, 16) == x * 65536
  {
    assert Shl(x, 4) == x * 16;
    assert Shl(x, 8) == x * 256;
  }

  lemma Halves(s1: nat, s2: nat)
    requires s1 < BASE
    ensures (s2 * 0x10000 + s1) % 0x10000 == s1 && (s2 * 0x10000 + s1) / 0x10000 == s2
  {
  }

  /** Wikipedia, in nine bytes. */
  function Known(): (s: seq<byte>)
    ensures |s| == 9
  {
    [0x57, 0x69, 0x6B, 0x69, 0x70, 0x65, 0x64, 0x69, 0x61]
  }

  function KnownSums(i: nat): Sums
    requires i <= 9
  {
    match i
    case 0 => Sums(1, 0)
    case 1 => Sums(88, 88)
    case 2 => Sums(193, 281)
    case 3 => Sums(300, 581)
    case 4 => Sums(405, 986)
    case 5 => Sums(517, 1503)
    case 6 => Sums(618, 2121)
    case 7 => Sums(718, 2839)
    case 8 => Sums(823, 3662)
    case _ => Sums(920, 4582)
  }

  lemma {:induction false} KnownPrefix(i: nat)
    requires i <= 9
    ensures Adler(Known()[..i]) == KnownSums(i)
  {
    if i == 0 { return; }
    assert Step(KnownSums(i - 1), Known()[i - 1]) == KnownSums(i);
    hide Adler, KnownSums, Known;
    KnownPrefix(i - 1);
    AdlerNext(Known(), i - 1);
  }

  /** Its well-known checksum. */
  lemma KnownValue()
    ensures Checksum(Known()) == 0x11E60398
  {
    KnownPrefix(9);
    assert Known()[..9] == Known();
    hide Adler, Known;
  }

  method LzAdler32(buf: seq<byte>) returns (r: nat)
    ensures r == Checksum(buf) < TWO32
    ensures r % 0x10000 == (1 + Total(buf)) % 65521
    ensures r / 0x10000 == (|buf| + Weighted(buf)) % 65521
  {
    hide Do16, Do1, Or, Shl;
    var s := Sums(1, 0);
    var len := |buf|;
    var p := 0;
    while len > 0
      invariant p + len == |buf| && Tracks(s, buf, p, 0)
      invariant s == Adler(buf[..p])
      decreases len
    {
      hide Tracks;
      var k := if len < NMAX then len else NMAX;
      len := len - k;
      ghost var n := k;
      while k >= 16
        invariant p + k + len == |buf| && k <= n <= NMAX && Tracks(s, buf, p, n - k)
      {
        Do16Tracks(s, buf, p, n - k);
        s := Do16(s, buf, p);
        p := p + 16;
        k := k - 16;
      }
      while k != 0
        invariant p + k + len == |buf| && k <= n <= NMAX && Tracks(s, buf, p, n - k)
      {
        Do1Tracks(s, buf, p, n - k);
        s := Do1(s, buf, p);
        p := p + 1;
        k := k - 1;
      }
      ReduceTracks(s, buf, p, n);
      s := Sums(s.s1 % BASE, s.s2 % BASE);
    }
    assert buf[..p] == buf;
    AdlerClosedForm(buf);
    Halves(s.s1, s.s2);
    Combine(s.s1, s.s2);
    r := Or(Shl(s.s2, 16), s.s1) % TWO32;
  }
}
