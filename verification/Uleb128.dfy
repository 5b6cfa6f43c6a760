/** getULEB128 of src/ota.c: unsigned LEB128 numbers as in section 7.6 of DWARF 4. */
module Uleb128 {
  import opened Common
  import opened Bits

  const TWO64 := 0x1_0000_0000_0000_0000
  const TWO63 := 0x8000_0000_0000_0000

  // ---- the format ----

  /** Some byte has its top bit clear. */
  ghost predicate Terminated(p: seq<byte>) {
    exists b <- p :: b < 128
  }

  /** The number of bytes up to and including the first with a clear top bit. */
  ghost function Length(p: seq<byte>): (n: nat)
    requires Terminated(p)
    ensures 1 <= n <= |p| && p[n - 1] < 128 && forall i :: 0 <= i < n - 1 ==> p[i] >= 128
  {
    if p[0] < 128 then 1
    else
      var b :| b in p && b < 128;
      assert p == [p[0]] + p[1..] && b in p[1..];
      1 + Length(p[1..])
  }

  /** Seven bits a byte, the lowest first. */
  function Value(s: seq<byte>): nat {
    if s == [] then 0 else s[0] % 128 + 128 * Value(s[1..])
  }

  /** The shortest encoding of v. */
  function Encode(v: nat): (s: seq<byte>)
    ensures s != []
  {
    if v < 128 then [v] else [v % 128 + 128] + Encode(v / 128)
  }

  /** A 64-bit pattern read as a signed number. */
  function AsInt64(u: nat): int
    requires u < TWO64
  {
    if u < TWO63 then u else u - TWO64
  }

  // ---- arithmetic ----

  lemma ShlSeven(x: nat, k: nat)
    ensures Shl(x, k + 7) == 128 * Shl(x, k)
  {
    ShlAgain(x, k, 7);
    assert Shl(Shl(x, k), 7) == 128 * Shl(x, k);
  }

  lemma {:induction false} ShlAgain(x: nat, k: nat, j: nat)
    ensures Shl(x, k + j) == Shl(Shl(x, k), j)
    decreases j
  {
    if j > 0 { ShlAgain(x, k, j - 1); }
  }

  lemma {:induction false} ShlTimes(x: nat, k: nat)
    ensures Shl(x, k) == x * Shl(1, k)
    decreases k
  {
    if k > 0 {
      ShlTimes(x, k - 1);
      assert x * (2 * Shl(1, k - 1)) == 2 * (x * Shl(1, k - 1));
    }
  }

  lemma {:induction false} ShrUndoesShl(x: nat, k: nat)
    ensures Shr(Shl(x, k), k) == x
    decreases k
  {
    if k > 0 { ShrUndoesShl(x, k - 1); }
  }

  lemma PowerOf63()
    ensures Shl(1, 63) == TWO63
  {
    assert Shl(1, 0) == 1;
    hide Shl;
    ShlSeven(1, 0); ShlSeven(1, 7); ShlSeven(1, 14); ShlSeven(1, 21); ShlSeven(1, 28);
    ShlSeven(1, 35); ShlSeven(1, 42); ShlSeven(1, 49); ShlSeven(1, 56);
  }

  /** 63 bits up, only the lowest bit stays inside 64. */
  lemma OverflowAt63(slice: nat)
    requires slice < 128
    ensures Shr(Shl(slice, 63) % TWO64, 63) == slice % 2
    ensures Shl(slice, 63) >= TWO64 <==> slice >= 2
  {
    var q, low := slice / 2, slice % 2;
    PowerOf63();
    ShlTimes(slice, 63);
    ShlTimes(low, 63);
    ShrUndoesShl(low, 63);
    assert slice * TWO63 == q * TWO64 + low * TWO63;
    ModBig(q, low);
  }

  lemma ModBig(q: nat, low: nat)
    requires low < 2
    ensures (q * TWO64 + low * TWO63) % TWO64 == low * TWO63
  {
  }

  lemma NoOverflowBelow63(slice: nat, n: nat)
    requires slice < 128 && n <= 8
    ensures Shl(slice, 7 * n) < TWO63
  {
    ShlMonotone(slice, 7 * n, 56);
    ShlTimes(slice, 56);
    PowerOf63();
    ShlSeven(1, 56);
  }

  /** The test in the code: shifting out and back changes the slice exactly when bits fall off the top. */
  lemma OverflowTest(slice: nat, n: nat)
    requires slice < 128 && n <= 9
    ensures Shr(Shl(slice, 7 * n) % TWO64, 7 * n) != slice <==> Shl(slice, 7 * n) >= TWO64
  {
    hide Shl, Shr;
    if n == 9 {
      OverflowAt63(slice);
    } else {
      NoOverflowBelow63(slice, n);
      ShrUndoesShl(slice, 7 * n);
    }
  }

  lemma {:induction false} ValueAppend(s: seq<byte>, b: byte)
    ensures Value(s + [b]) == Value(s) + Shl(b % 128, 7 * |s|)
    ensures Value(s) < Shl(1, 7 * |s|)
  {
    if s != [] {
      assert (s + [b])[1..] == s[1..] + [b];
      ValueAppend(s[1..], b);
      ShlSeven(b % 128, 7 * (|s| - 1));
      ShlSeven(1, 7 * (|s| - 1));
    }
  }

  lemma {:induction false} ValuePrefix(s: seq<byte>, n: nat)
    requires n <= |s|
    ensures Value(s[..n]) <= Value(s)
  {
    if n > 0 {
      assert s[..n][1..] == s[1..][..n - 1];
      ValuePrefix(s[1..], n - 1);
    }
  }

  /** The flag and the slice of a byte. */
  lemma ByteBits(b: byte)
    ensures And(b, 0x7f) == b % 128
    ensures And(b, 0x80) == 0 <==> b < 128
  {
    AndMask(b, 7);
    assert Shl(1, 7) == 128;
    Low7(b);
    AndHigh(b, 1, 7);
    AndMask(Shr(b, 7), 1);
    assert Shr(b, 7) == b / 128;
    assert Shl(0, 7) == 0;
  }

  lemma Low7(b: nat)
    ensures Low(b, 7) == b % 128
  {
    HighAndLow(b, 7);
    hide Low, Shr;
    assert Shl(1, 7) == 128 && Shl(Shr(b, 7), 7) == 128 * Shr(b, 7);
    RemainderIs(b, Shr(b, 7), Low(b, 7));
  }

  lemma RemainderIs(x: nat, q: nat, low: nat)
    requires x == 128 * q + low && low < 128
    ensures x % 128 == low
  {
  }

  /** The bytes at which the reader may stop: the end of the number, or the first that does not fit. */
  ghost predicate Fits(p: seq<byte>) {
    Terminated(p) && Length(p) <= 10 && Value(p[..Length(p)]) < TWO64
  }

  /** All bytes so far ask for another one. */
  ghost predicate Unfinished(p: seq<byte>, n: nat) {
    n <= |p| && forall i :: 0 <= i < n ==> p[i] >= 128
  }

  lemma MoreToRead(p: seq<byte>, n: nat)
    requires Unfinished(p, n) && n <= 10 && (Terminated(p) || |p| >= 11)
    ensures n < |p|
  {
  }

  lemma LengthIs(p: seq<byte>, n: nat)
    requires Unfinished(p, n) && n < |p| && p[n] < 128
    ensures Terminated(p) && Length(p) == n + 1
  {
    assert p[n] in p;
  }

  /** Byte n is taken in: the sum it is added to ends below its bits. */
  lemma Accumulate(p: seq<byte>, n: nat)
    requires n < |p|
    ensures Value(p[..n + 1]) == Value(p[..n]) + Shl(p[n] % 128, 7 * n)
    ensures Or(Value(p[..n]), Shl(p[n] % 128, 7 * n)) == Value(p[..n + 1])
  {
    assert p[..n + 1] == p[..n] + [p[n]];
    ValueAppend(p[..n], p[n]);
    OrDisjoint(Value(p[..n]), p[n] % 128, 7 * n);
  }

  /** Where they do not, the sum stays a 64-bit number. */
  lemma StaysBelow(p: seq<byte>, n: nat)
    requires n < |p| && n <= 9 && Shl(p[n] % 128, 7 * n) < TWO64
    ensures Value(p[..n + 1]) < TWO64
  {
    Accumulate(p, n);
    ValueAppend(p[..n], 0);
    PowerOf63();
    if n == 9 {
      OverflowAt63(p[n] % 128);
      ShlTimes(p[n] % 128, 63);
    } else {
      NoOverflowBelow63(p[n] % 128, n);
      ShlMonotone(1, 7 * n, 63);
    }
  }

  /** Where the bits of byte n go past 64, n is 9, and no continuation makes the number fit. */
  lemma Overflow(p: seq<byte>, n: nat)
    requires Unfinished(p, n) && n < |p| && n <= 9 && Shl(p[n] % 128, 7 * n) >= TWO64
    ensures n == 9 && Value(p[..10]) >= TWO64 && !Fits(p)
  {
    Accumulate(p, n);
    if n < 9 { NoOverflowBelow63(p[n] % 128, n); }
    if Terminated(p) && Length(p) <= 10 { assert Length(p) == 10; }
  }

  /** Ten bytes that ask for more are too many. */
  lemma TooLong(p: seq<byte>)
    requires Unfinished(p, 10)
    ensures !Fits(p)
  {
  }

  /** What the test on byte n reports for an n-byte prefix that fits. */
  ghost predicate Bad(b: byte, n: nat) {
    7 * n >= 64 || Shr(Shl(And(b, 0x7f), 7 * n) % TWO64, 7 * n) != And(b, 0x7f)
  }

  lemma Step(p: seq<byte>, n: nat)
    requires Unfinished(p, n) && n < |p| && n <= 10 && Value(p[..n]) < TWO64
    ensures Bad(p[n], n) ==> !Fits(p) && (n == 10 || (n == 9 && Value(p[..10]) >= TWO64))
    ensures !Bad(p[n], n) ==>
              n <= 9 && Or(Value(p[..n]), Shl(And(p[n], 0x7f), 7 * n) % TWO64) == Value(p[..n + 1]) < TWO64
    ensures if And(p[n], 0x80) != 0 then Unfinished(p, n + 1) else p[n] < 128
  {
    hide Value, Fits, And, Or, Shl, Shr, Terminated;
    var b := p[n];
    ByteBits(b);
    assert And(b, 0x7f) == b % 128;
    if n <= 9 {
      OverflowTest(b % 128, n);
      if Shl(p[n] % 128, 7 * n) >= TWO64 {
        Overflow(p, n);
      } else {
        Accumulate(p, n);
        StaysBelow(p, n);
      }
    } else {
      TooLong(p);
    }
  }

  /**
   * Reads a number; ok is false where the code reports a malformed one and returns 0.
   * The eleventh byte is the last that may be looked at.
   */
  method GetULEB128(p: seq<byte>) returns (result: int, len: nat, ok: bool)
    requires Terminated(p) || |p| >= 11
    ensures ok <==> Fits(p)
    ensures ok ==> len == Length(p) && result == AsInt64(Value(p[..len]))
    ensures ok ==> -TWO63 <= result < TWO63 && (result - Value(p[..len])) % TWO64 == 0
    ensures !ok ==> result == 0
    ensures !ok ==> len == 11 || (len == 10 && |p| >= 10 && Value(p[..10]) >= TWO64)
  {
    var u := 0;
    var bit := 0;
    len := 0;
    var more := true;
    while more
      invariant len <= 10 && bit == 7 * len
      invariant if more then Unfinished(p, len) else len > 0 && Unfinished(p, len - 1) && len <= |p| && p[len - 1] < 128
      invariant u == Value(p[..len]) < TWO64
      decreases 10 - len, more
    {
      hide Value, Terminated, Fits, Unfinished, And, Or, Shl, Shr;
      MoreToRead(p, len);
      Step(p, len);
      var b := p[len];
      len := len + 1;
      var slice := And(b, 0x7f);
      if bit >= 64 || Shr(Shl(slice, bit) % TWO64, bit) != slice {
        return 0, len, false;
      }
      u := Or(u, Shl(slice, bit) % TWO64);
      bit := bit + 7;
      more := And(b, 0x80) != 0;
    }
    LengthIs(p, len - 1);
    result, ok := AsInt64(u), true;
    Congruent(u);
  }

  lemma Congruent(u: nat)
    requires u < TWO64
    ensures -TWO63 <= AsInt64(u) < TWO63 && (AsInt64(u) - u) % TWO64 == 0
    ensures u < TWO63 ==> AsInt64(u) == u
  {
    if u >= TWO63 { assert AsInt64(u) - u == -1 * TWO64; }
  }

  // ---- the other direction ----

  lemma {:induction false} EncodeValue(v: nat)
    ensures Value(Encode(v)) == v
  {
    if v >= 128 {
      EncodeValue(v / 128);
      assert Encode(v)[1..] == Encode(v / 128);
    } else {
      assert Value([v as byte]) == v % 128 + 128 * Value([]);
    }
  }

  lemma {:induction false} EncodeShape(v: nat)
    ensures var s := Encode(v);
            s[|s| - 1] < 128 && forall i :: 0 <= i < |s| - 1 ==> s[i] >= 128
  {
    if v >= 128 {
      EncodeShape(v / 128);
      var s := Encode(v);
      assert forall i :: 1 <= i < |s| ==> s[i] == Encode(v / 128)[i - 1];
    }
  }

  lemma {:induction false} EncodeLength(v: nat, k: nat)
    requires v < Shl(1, 7 * k) && k > 0
    ensures |Encode(v)| <= k
    decreases k
  {
    if v >= 128 {
      ShlSeven(1, 7 * (k - 1));
      EncodeLength(v / 128, k - 1);
    }
  }

  /** Every 64-bit number, encoded as the format says, is read back with its length. */
  lemma EncodeFits(v: nat)
    requires v < TWO64
    ensures Fits(Encode(v)) && Length(Encode(v)) == |Encode(v)| && Value(Encode(v)) == v
  {
    hide Encode, Value, Shl;
    EncodeValue(v);
    EncodeShape(v);
    LengthIs(Encode(v), |Encode(v)| - 1);
    PowerOf63();
    ShlSeven(1, 63);
    EncodeLength(v, 10);
    assert Encode(v)[..|Encode(v)|] == Encode(v);
  }

  /** Numbers below 2^63 come back as they are. */
  lemma EncodeReads(v: nat)
    requires v < TWO63
    ensures Fits(Encode(v)) && AsInt64(Value(Encode(v)[..Length(Encode(v))])) == v
  {
    EncodeFits(v);
    assert Encode(v)[..|Encode(v)|] == Encode(v);
    Congruent(v);
  }

  /** The examples of the standard. */
  lemma StandardExamples()
    ensures Encode(2) == [2] && Encode(127) == [127] && Encode(128) == [0x80, 1] && Encode(129) == [0x81, 1]
    ensures Encode(130) == [0x82, 1] && Encode(12857) == [57 + 0x80, 100]
  {
    assert Encode(1) == [1] && Encode(100) == [100];
  }
}
