/** Decompression undoes compression. */
module LzssRoundTrip {
  import opened Bits
  import opened LzssBase
  import opened LzssFormat
  import opened LzssText
  import opened Compressor
  import opened Decompressor

  /** Whatever tokens the encoder chose for src, and whatever the decoder's ring held at the start, reading
      them back gives src. */
  lemma DecodeUndoesEncode(src: seq<Byte>, ts: seq<Token>, junk: seq<Byte>)
    requires |junk| == F && Encoded(Stream(src), START, ts, START + |src|)
    ensures AllOk(ts) && Parse(Serialize(ts)) == ts && TotalSize(ts) == |src|
    ensures Run(Initial(junk), Parse(Serialize(ts))) == Initial(junk) + src
  {
    hide Run, Parse, Serialize, Encoded, TotalSize, AllOk;
    var x := Stream(src);
    EncodedIsOk(x, START, ts, START + |src|);
    ParseSerialize(ts);
    RunIsText(junk, x, START, ts, START + |src|);
    assert junk + x[..START] == Initial(junk);
    assert junk + x[..START + |src|] == Initial(junk) + src;
  }

  /** Compressed text fits into the text's length and an eighth, hence into the buffer of twice the length
      that the callers pass. */
  lemma CompressedFits(src: seq<Byte>, ts: seq<Token>)
    requires src != [] && AllOk(ts) && TotalSize(ts) <= |src|
    ensures |Serialize(ts)| <= |src| + (|src| + 7) / 8 <= 2 * |src|
  {
    SerializedBound(ts);
  }

  /** Saving a compressed file and opening it again, as lzssfile.c does: compression into twice the length
      never fails, decompression produces the recorded length, and the bytes are those that were saved. */
  method SaveAndOpen(src: seq<Byte>) returns (buffer: array<Byte>, length: nat)
    requires src != []
    ensures length == buffer.Length && buffer[..] == src
  {
    var compressed := new Byte[2 * |src|];
    var end, ts := CompressLzss(compressed, 2 * |src|, src);
    CompressedFits(src, ts);
    DecodeUndoesEncode(src, ts, seq(F, _ => 0));
    buffer := new Byte[|src|];
    ghost var junk;
    length, junk := DecompressLzss(buffer, compressed[..end.value]);
    DecodeUndoesEncode(src, ts, junk);
    assert buffer[..] == buffer[..length] == (Initial(junk) + buffer[..length])[N..] == (Initial(junk) + src)[N..];
  }
}
