/** The split branch of doKextract in src/joker.c: the segments of a kext are collected into one file. */
module SplitKext {
  import opened Common

  const PAGE := 0x1000

  datatype Section = Section(offset: nat, size: nat)

  /** A load command; only 64-bit segments concern this code. */
  datatype Command = Other | Segment(vmaddr: nat, fileoff: nat, filesize: nat, sections: seq<Section>)

  /** The __PRELINK_DATA.__data section of the kernel cache. */
  datatype Prelink = Prelink(addr: nat, offset: nat, size: nat)

  /** Where a segment's bytes lie in the kernel cache: relative to the kext, or by address in the prelinked data. */
  function Source(c: Command, kext: nat, pre: Prelink): nat
    requires c.Segment?
  {
    if pre.addr <= c.vmaddr <= pre.addr + pre.size then pre.offset + (c.vmaddr - pre.addr) else kext + c.fileoff
  }

  ghost predicate InCache(c: Command, cache: seq<byte>, kext: nat, pre: Prelink) {
    c.Segment? ==> Source(c, kext, pre) + c.filesize <= |cache|
  }

  /** A section offset moves with its segment, in 32 bits; 0 means that there is nothing in the file. */
  function Moved(s: Section, patch: int): Section {
    if s.offset == 0 then s else Section((s.offset - patch) % TWO32, s.size)
  }

  /** A command after its turn: the segment's bytes are in the file, page aligned, and its offsets say where. */
  ghost predicate Placed(c: Command, c': Command, file: seq<byte>, cache: seq<byte>, kext: nat, pre: Prelink)
    requires InCache(c, cache, kext, pre)
  {
    if c.Other? then c' == c
    else
      && c'.Segment? && c'.vmaddr == c.vmaddr && c'.filesize == c.filesize
      && c'.fileoff % PAGE == 0 && c'.fileoff + c.filesize <= |file|
      && file[c'.fileoff..c'.fileoff + c.filesize] == cache[Source(c, kext, pre)..Source(c, kext, pre) + c.filesize]
      && |c'.sections| == |c.sections|
      && forall k :: 0 <= k < |c.sections| ==> c'.sections[k] == Moved(c.sections[k], c.fileoff - c'.fileoff)
  }

  ghost predicate AllPlaced(cs: seq<Command>, cs': seq<Command>, n: nat, file: seq<byte>, cache: seq<byte>,
      kext: nat, pre: Prelink)
    requires forall c <- cs :: InCache(c, cache, kext, pre)
  {
    && n <= |cs| == |cs'|
    && (forall i :: 0 <= i < n ==> Placed(cs[i], cs'[i], file, cache, kext, pre))
    && (forall i :: n <= i < |cs| ==> cs'[i] == cs[i])
  }

  /** Segments follow one another without overlap, in the order of the commands. */
  ghost predicate Ascending(cs: seq<Command>, n: nat, end: nat)
    requires n <= |cs|
  {
    && (forall i :: 0 <= i < n && cs[i].Segment? ==> cs[i].fileoff + cs[i].filesize <= end)
    && (forall i, j :: 0 <= i < j < n && cs[i].Segment? && cs[j].Segment? ==>
          cs[i].fileoff + cs[i].filesize <= cs[j].fileoff)
  }

  lemma PlacedGrows(c: Command, c': Command, file: seq<byte>, more: seq<byte>, cache: seq<byte>, kext: nat,
      pre: Prelink)
    requires InCache(c, cache, kext, pre) && Placed(c, c', file, cache, kext, pre)
    ensures Placed(c, c', file + more, cache, kext, pre)
  {
    if c.Segment? {
      assert (file + more)[c'.fileoff..c'.fileoff + c.filesize] == file[c'.fileoff..c'.fileoff + c.filesize];
    }
  }

  lemma ModBack(x: int)
    ensures 0 <= x % TWO32 < TWO32 && (x % TWO32 - x) % TWO32 == 0
  {
    assert x % TWO32 - x == -(x / TWO32) * TWO32;
  }

  /** The inner loop: every section with a file offset is moved by `patch`. */
  method PatchSections(secs: seq<Section>, patch: int) returns (secs': seq<Section>)
    ensures |secs'| == |secs|
    ensures forall k :: 0 <= k < |secs| ==> secs'[k] == Moved(secs[k], patch)
    ensures forall k :: 0 <= k < |secs| ==>
              && secs'[k].size == secs[k].size
              && (secs[k].offset == 0 ==> secs'[k].offset == 0)
              && (secs[k].offset != 0 ==> secs'[k].offset < TWO32
                                          && (secs'[k].offset + patch - secs[k].offset) % TWO32 == 0)
  {
    secs' := secs;
    for sect := 0 to |secs|
      invariant |secs'| == |secs| && forall k :: sect <= k < |secs| ==> secs'[k] == secs[k]
      invariant forall k :: 0 <= k < sect ==> secs'[k] == Moved(secs[k], patch)
    {
      if secs'[sect].offset != 0 {
        secs' := secs'[sect := secs'[sect].(offset := (secs'[sect].offset - patch) % TWO32)];
      }
    }
    forall k | 0 <= k < |secs| ensures (secs'[k].offset + patch - secs[k].offset) % TWO32 == 0 || secs[k].offset == 0 {
      ModBack(secs[k].offset - patch);
    }
  }

  /** What is written after a segment; a file that already ends on a page boundary gets a whole page. */
  function Padding(off: nat): (z: seq<byte>)
    ensures off > 0 ==> (off + |z|) % PAGE == 0 && 0 < |z| <= PAGE
    ensures off > 0 ==> |z| == PAGE - off % PAGE
    ensures forall i :: 0 <= i < |z| ==> z[i] == 0
    ensures off == 0 ==> z == []
  {
    if off > 0 then seq<byte>(PAGE - off % PAGE, _ => 0) else []
  }

  predicate OnPage(n: nat) { n % PAGE == 0 }

  /** Where the padding behind a segment ends. */
  function Padded(end: nat): nat { if end == 0 then 0 else (end / PAGE + 1) * PAGE }

  /** On the next page boundary, a whole page further if the segment ends on one. */
  lemma PaddedIs(end: nat)
    requires end > 0
    ensures OnPage(Padded(end)) && end < Padded(end) <= end + PAGE
  {
  }

  /** One segment: its bytes, its patched command, and the padding behind it. */
  method PlaceSegment(c: Command, file: seq<byte>, cache: seq<byte>, kext: nat, pre: Prelink)
    returns (c': Command, file': seq<byte>)
    requires c.Segment? && InCache(c, cache, kext, pre) && OnPage(|file|)
    ensures file <= file' && OnPage(|file'|)
    ensures Placed(c, c', file', cache, kext, pre)
    ensures c'.fileoff == |file| && |file| + c.filesize <= |file'|
    ensures var end := |file| + c.filesize;
            && |file'| == Padded(end)
            && forall i :: end <= i < |file'| ==> file'[i] == 0
  {
    var off := |file|;
    var from := Source(c, kext, pre);
    var bytes := cache[from..from + c.filesize];
    file' := file + bytes;
    var patch := c.fileoff - off;
    var sections := PatchSections(c.sections, patch);
    c' := c.(fileoff := off, sections := sections);
    assert file'[off..off + c.filesize] == bytes;
    assert Placed(c, c', file', cache, kext, pre);
    PlacedGrows(c, c', file', Padding(|file'|), cache, kext, pre);
    file' := file' + Padding(|file'|);
  }

  /**
   * Collects the segments into a file and then rewrites its first page with the patched header
   * (`header` yields the 4096 bytes that hold the load commands). The commands are patched in place.
   */
  method SplitKext(cache: seq<byte>, kext: nat, pre: Prelink, cmds: array<Command>, header: seq<Command> -> seq<byte>)
    returns (file: seq<byte>, ghost before: seq<byte>)
    requires forall c <- cmds[..] :: InCache(c, cache, kext, pre)
    requires forall cs :: |header(cs)| == PAGE
    modifies cmds
    ensures AllPlaced(old(cmds[..]), cmds[..], cmds.Length, before, cache, kext, pre)
    ensures Ascending(cmds[..], cmds.Length, |before|) && OnPage(|before|)
    ensures |file| >= PAGE && file[..PAGE] == header(cmds[..])
    ensures file[PAGE..] == if |before| > PAGE then before[PAGE..] else []
  {
    before := [];
    file := [];
    assert OnPage(0);
    ghost var cs := cmds[..];
    PlacedNone(cs, cache, kext, pre);
    hide AllPlaced, Ascending, Placed, InCache, OnPage, Padded;
    for lc := 0 to cmds.Length
      invariant AllPlaced(cs, cmds[..], lc, file, cache, kext, pre)
      invariant Ascending(cmds[..], lc, |file|) && OnPage(|file|)
    {
      var c := cmds[lc];
      NotYet(cs, cmds[..], lc, file, cache, kext, pre);
      if c.Segment? {
        var c', file';
        c', file' := PlaceSegment(c, file, cache, kext, pre);
        PlaceNext(cs, cmds[..], lc, file, c', file', cache, kext, pre);
        cmds[lc] := c';
        file := file';
      } else {
        OtherNext(cs, cmds[..], lc, file, cache, kext, pre);
      }
    }
    before := file;
    file := Rewritten(header(cmds[..]), file);
  }

  /** What seeking to the start and writing a page leaves. */
  function Rewritten(page: seq<byte>, before: seq<byte>): (file: seq<byte>)
    requires |page| == PAGE
    ensures |file| >= PAGE && file[..PAGE] == page
    ensures file[PAGE..] == if |before| > PAGE then before[PAGE..] else []
  {
    page + if |before| > PAGE then before[PAGE..] else []
  }

  lemma PlacedNone(cs: seq<Command>, cache: seq<byte>, kext: nat, pre: Prelink)
    requires forall c <- cs :: InCache(c, cache, kext, pre)
    ensures AllPlaced(cs, cs, 0, [], cache, kext, pre) && Ascending(cs, 0, 0)
  {
  }

  lemma NotYet(cs: seq<Command>, cs': seq<Command>, n: nat, file: seq<byte>, cache: seq<byte>, kext: nat, pre: Prelink)
    requires forall c <- cs :: InCache(c, cache, kext, pre)
    requires AllPlaced(cs, cs', n, file, cache, kext, pre) && n < |cs'|
    ensures |cs| == |cs'| && cs[n] in cs && cs'[n] == cs[n] && InCache(cs'[n], cache, kext, pre)
  {
  }

  lemma OtherNext(cs: seq<Command>, cs': seq<Command>, n: nat, file: seq<byte>, cache: seq<byte>, kext: nat,
      pre: Prelink)
    requires forall c <- cs :: InCache(c, cache, kext, pre)
    requires n < |cs| && cs[n].Other? && AllPlaced(cs, cs', n, file, cache, kext, pre)
    requires Ascending(cs', n, |file|)
    ensures AllPlaced(cs, cs', n + 1, file, cache, kext, pre) && Ascending(cs', n + 1, |file|)
  {
  }

  lemma PlaceNext(cs: seq<Command>, cs': seq<Command>, n: nat, file: seq<byte>, c': Command, file': seq<byte>,
      cache: seq<byte>, kext: nat, pre: Prelink)
    requires forall c <- cs :: InCache(c, cache, kext, pre)
    requires n < |cs| && cs[n].Segment? && AllPlaced(cs, cs', n, file, cache, kext, pre)
    requires Ascending(cs', n, |file|)
    requires file <= file' && Placed(cs[n], c', file', cache, kext, pre)
    requires c'.fileoff == |file| && |file| + c'.filesize <= |file'|
    ensures AllPlaced(cs, cs'[n := c'], n + 1, file', cache, kext, pre)
    ensures Ascending(cs'[n := c'], n + 1, |file'|)
  {
    var next := cs'[n := c'];
    forall i | 0 <= i < n + 1 ensures Placed(cs[i], next[i], file', cache, kext, pre) {
      if i < n {
        assert next[i] == cs'[i] && cs[i] in cs;
        PlacedGrows(cs[i], cs'[i], file, file'[|file|..], cache, kext, pre);
        assert file + file'[|file|..] == file';
      }
    }
  }

  /** A section of the source whose bytes lie inside its segment. */
  predicate Inside(s: Section, c: Command)
    requires c.Segment?
  {
    s.offset != 0 && c.fileoff <= s.offset && s.offset + s.size <= c.fileoff + c.filesize
  }

  /** Section k keeps its place in its segment and, behind the first page of the file, its bytes. */
  ghost predicate Kept(c: Command, c': Command, k: nat, file: seq<byte>, cache: seq<byte>, from: nat)
    requires c.Segment? && c'.Segment? && k < |c.sections| == |c'.sections|
    requires Inside(c.sections[k], c) && from + c.filesize <= |cache|
  {
    var (s, s') := (c.sections[k], c'.sections[k]);
    && s'.size == s.size && s'.offset - c'.fileoff == s.offset - c.fileoff
    && (s.size > 0 && s'.offset + s.size > PAGE ==> s'.offset + s.size <= |file|)
    && forall i :: PAGE <= i < s'.offset + s.size && s'.offset <= i ==>
         file[i] == cache[from + (s.offset - c.fileoff) + (i - s'.offset)]
  }

  lemma SectionKeepsContent(c: Command, c': Command, before: seq<byte>, file: seq<byte>, cache: seq<byte>, kext: nat,
      pre: Prelink, k: nat)
    requires InCache(c, cache, kext, pre) && Placed(c, c', before, cache, kext, pre) && c.Segment?
    requires k < |c.sections| && Inside(c.sections[k], c) && |before| < TWO32
    requires |file| >= PAGE && file[PAGE..] == (if |before| > PAGE then before[PAGE..] else [])
    ensures Kept(c, c', k, file, cache, Source(c, kext, pre))
  {
    var s, s' := c.sections[k], c'.sections[k];
    assert s' == Moved(s, c.fileoff - c'.fileoff);
    var d := s.offset - c.fileoff;
    assert s'.offset == c'.fileoff + d;
    var whole := before[c'.fileoff..c'.fileoff + c.filesize];
    forall i | PAGE <= i < s'.offset + s.size && s'.offset <= i
      ensures file[i] == cache[Source(c, kext, pre) + d + (i - s'.offset)]
    {
      assert before[i] == whole[d + (i - s'.offset)];
      assert file[i] == file[PAGE..][i - PAGE] == before[PAGE..][i - PAGE];
    }
  }

  /** What the command list is for: in the finished file every section is found at its patched offset. */
  lemma AllSectionsKeepContent(cs: seq<Command>, cs': seq<Command>, before: seq<byte>, file: seq<byte>,
      cache: seq<byte>, kext: nat, pre: Prelink)
    requires forall c <- cs :: InCache(c, cache, kext, pre)
    requires AllPlaced(cs, cs', |cs|, before, cache, kext, pre) && |before| < TWO32
    requires |file| >= PAGE && file[PAGE..] == (if |before| > PAGE then before[PAGE..] else [])
    ensures forall i, k ::
              0 <= i < |cs| && cs[i].Segment? && 0 <= k < |cs[i].sections| && Inside(cs[i].sections[k], cs[i]) ==>
              && cs'[i].Segment? && |cs'[i].sections| == |cs[i].sections|
              && InCache(cs[i], cache, kext, pre)
              && Kept(cs[i], cs'[i], k, file, cache, Source(cs[i], kext, pre))
  {
    forall i, k | 0 <= i < |cs| && cs[i].Segment? && 0 <= k < |cs[i].sections| && Inside(cs[i].sections[k], cs[i])
      ensures && cs'[i].Segment? && |cs'[i].sections| == |cs[i].sections| && InCache(cs[i], cache, kext, pre)
              && Kept(cs[i], cs'[i], k, file, cache, Source(cs[i], kext, pre))
    {
      assert cs[i] in cs && Placed(cs[i], cs'[i], before, cache, kext, pre);
      SectionKeepsContent(cs[i], cs'[i], before, file, cache, kext, pre, k);
    }
  }

  /**
   * Which bytes of the cache a segment shows: by address if that lies in the prelinked data, first and last
   * address included, and by offset in the kext otherwise.
   */
  lemma SegmentShows(cs: seq<Command>, cs': seq<Command>, before: seq<byte>, cache: seq<byte>, kext: nat, pre: Prelink,
      i: nat, j: nat)
    requires forall c <- cs :: InCache(c, cache, kext, pre)
    requires AllPlaced(cs, cs', |cs|, before, cache, kext, pre)
    requires i < |cs| && cs[i].Segment? && j < cs[i].filesize
    ensures cs'[i].Segment? && cs'[i].fileoff + j < |before|
    ensures var there := cs[i].vmaddr - pre.addr;
            if 0 <= there <= pre.size
            then pre.offset + there + j < |cache| && before[cs'[i].fileoff + j] == cache[pre.offset + there + j]
            else kext + cs[i].fileoff + j < |cache| && before[cs'[i].fileoff + j] == cache[kext + cs[i].fileoff + j]
  {
    var c, c' := cs[i], cs'[i];
    assert c in cs && Placed(c, c', before, cache, kext, pre);
    var from := Source(c, kext, pre);
    assert before[c'.fileoff..c'.fileoff + c.filesize][j] == cache[from..from + c.filesize][j];
  }
}
