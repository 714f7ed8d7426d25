/**
 The command-buffer path: tool/cvimodel_tool.cpp compresses a buffer into LZ4_compressBound bytes of
 room; the loader expands it into a buffer of exactly the original size and insists on that size.
 */
module Lz4RoundTrip {
  import opened Common
  import opened Lz4Format
  import opened Lz4Block
  import opened Lz4Plan
  import opened Lz4Encoder
  import opened Lz4Decoder

  /** A compressed block conforms, and the reference decoder gives the input back. */
  lemma CompressedDecodes(src: seq<byte>, out: seq<byte>, b: Block)
    requires Compressed(src, out, b) && |src| <= MAX_INPUT_SIZE
    ensures |out| < INT_RANGE
    ensures Decode(Unbounded, out, 0, []) == Some(src)
    ensures Conforms(out, 0, 0, |src|)
  {
    hide Decode, Conforms, LegalBlock, Serialize, Expand;
    SerializeDecodes(b);
    CompressedSize(src, out, b);
  }

  /** LZ4_compress_default then LZ4_decompress_safe, into exactly the original size. */
  method CompressThenDecompress(src: seq<byte>, capacity: nat) returns (size: nat, restored: seq<byte>, ghost b: Block)
    ensures Planned(src, TableFor(|src|), 1, b)
    ensures size > 0 <==> |src| <= MAX_INPUT_SIZE && |Serialize(b)| <= capacity
    ensures |src| <= MAX_INPUT_SIZE && CompressBound(|src|) <= capacity ==> 0 < size <= CompressBound(|src|)
    ensures size <= capacity
    ensures size > 0 ==> restored == src
  {
    hide Compressed, Decode, Conforms, Accepts, Narrow, Plan, Serialize;
    var dst := new byte[capacity](_ => 0);
    size, b := CompressFast(src, dst, 1);
    restored := [];
    NonEmptyBlock(b);
    if size > 0 {
      var block := dst[..size];
      CompressedDecodes(src, block, b);
      ConformsNarrow(block, 0, 0, |src|);
      var buf := new byte[|src|](_ => 0);
      var rc := DecompressSafe(block, buf);
      restored := buf[..rc];
    }
  }
}
