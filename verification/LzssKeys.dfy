/** Longest common prefixes and the byte-wise order of keys. */
module LzssKeys {
  import opened Common

  function Min(a: int, b: int): int { if a <= b then a else b }

  /** n is the length of the longest common prefix of a and b. */
  ghost predicate IsLcp(a: seq<byte>, b: seq<byte>, n: nat) {
    && n <= |a| && n <= |b|
    && (forall i :: 0 <= i < n ==> a[i] == b[i])
    && (n < |a| && n < |b| ==> a[n] != b[n])
  }

  function Lcp(a: seq<byte>, b: seq<byte>): (n: nat)
    ensures IsLcp(a, b, n)
  {
    if a == [] || b == [] || a[0] != b[0] then 0
    else
      var m := Lcp(a[1..], b[1..]);
      assert forall i :: 0 < i <= m ==> a[i] == a[1..][i - 1] && b[i] == b[1..][i - 1];
      m + 1
  }

  /** Strict lexicographic order on keys of one length. */
  predicate Less(a: seq<byte>, b: seq<byte>)
    requires |a| == |b|
  {
    var n := Lcp(a, b);
    n < |a| && a[n] < b[n]
  }

  lemma LcpIsUnique(a: seq<byte>, b: seq<byte>, m: nat)
    requires IsLcp(a, b, m)
    ensures Lcp(a, b) == m
  {
  }

  lemma LcpSymmetric(a: seq<byte>, b: seq<byte>)
    ensures Lcp(a, b) == Lcp(b, a)
  {
    LcpIsUnique(a, b, Lcp(b, a));
  }

  lemma LcpFull(a: seq<byte>, b: seq<byte>)
    requires |a| == |b|
    ensures Lcp(a, b) == |a| <==> a == b
  {
    if a == b {
      LcpIsUnique(a, b, |a|);
    }
  }

  /** Two keys are equal or ordered one way. */
  lemma LessTotal(a: seq<byte>, b: seq<byte>)
    requires |a| == |b|
    ensures !(Less(a, b) && Less(b, a)) && !Less(a, a)
    ensures a == b || Less(a, b) || Less(b, a)
  {
    LcpSymmetric(a, b);
    LcpFull(a, b);
    LcpFull(a, a);
  }

  /** In a < b < c, the outer pair shares exactly what both inner pairs share. */
  lemma LessSqueeze(a: seq<byte>, b: seq<byte>, c: seq<byte>)
    requires |a| == |b| == |c| && Less(a, b) && Less(b, c)
    ensures Less(a, c)
    ensures Lcp(a, c) == Min(Lcp(a, b), Lcp(b, c))
  {
    LcpIsUnique(a, c, Min(Lcp(a, b), Lcp(b, c)));
  }

  /** Cutting both keys to len bytes cuts the common prefix. */
  lemma LcpCut(a: seq<byte>, b: seq<byte>, len: nat)
    requires len <= |a| && len <= |b|
    ensures Lcp(a[..len], b[..len]) == Min(Lcp(a, b), len)
  {
    LcpIsUnique(a[..len], b[..len], Min(Lcp(a, b), len));
  }
}
