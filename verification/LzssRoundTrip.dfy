/** Compressing and decompressing together. */
module LzssRoundTrip {
  import opened Common
  import opened LzssPacking
  import opened LzssWindow
  import opened LzssDecoder
  import opened LzssEncoder

  /**
   * Compresses a text into a buffer of `room` bytes and decompresses exactly what was written.
   * Whenever there is a result it is the text; there is one for every text that is not empty as
   * soon as room allows for one flag byte per eight text bytes.
   */
  method RoundTrip(src: seq<byte>, room: nat) returns (back: Option<seq<byte>>, size: nat)
    ensures back.Some? ==> back.value == src && size <= room && size <= |src| + (|src| + 7) / 8
    ensures src != [] && room >= |src| + (|src| + 7) / 8 ==> back.Some?
    ensures src == [] ==> back.None?
  {
    var dst := new byte[room];
    var res;
    ghost var toks;
    res, toks := CompressLzss(dst, room, src);
    EncodesIsWellFormed(src, 0, toks);
    ExpansionBound(toks);
    if res.None? {
      return None, 0;
    }
    size := res.value;
    var out := new byte[|src|];
    var n;
    ghost var junk;
    assert dst[..size] == Pack(toks);
    ParsePack(toks);
    n, junk := DecompressLzss(out, dst[..size]);
    DecodeEncoding(src, toks, junk);
    back := Some(out[..n]);
  }
}
