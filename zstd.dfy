/** The parts of the zstd library the reader relies on, as opaque function values. */
module Zstd {
  import opened Wrappers
  import opened Bytes

  /** findFrameCompressedSize stands for ZSTD_findFrameCompressedSize: given the bytes from a
      supposed frame start to the end of the data, the length of the frame there, or None
      when they do not start a frame. decompressedSize stands for the content-size query on
      one whole frame (ZSTD_getFrameContentSize), None when the frame does not declare a
      usable size. decompress is one-shot decompression of one whole frame, None when the
      frame is corrupt. */
  datatype Codec = Codec(
    findFrameCompressedSize: seq<byte> -> Option<nat>,
    decompressedSize: seq<byte> -> Option<nat>,
    decompress: seq<byte> -> Option<seq<byte>>)

  /** The compressed length of the frame that starts at offset off of data. A frame can not
      run past the bytes it is given (zstd reports such a frame as an error), so an answer
      longer than what is left, or an offset past the end, is a failed query. */
  function FrameSizeAt(z: Codec, data: seq<byte>, off: nat): (r: Option<nat>)
    ensures r.Some? <==>
      (off <= |data| && z.findFrameCompressedSize(data[off..]).Some?
       && z.findFrameCompressedSize(data[off..]).value <= |data| - off)
    ensures r.Some? ==> r == z.findFrameCompressedSize(data[off..])
    ensures r.Some? ==> off + r.value <= |data|
  {
    if off > |data| then None
    else match z.findFrameCompressedSize(data[off..])
      case Some(n) => if n <= |data| - off then Some(n) else None
      case None => None
  }

  /** The compressed bytes of the frame that starts at off. */
  function FrameBytesAt(z: Codec, data: seq<byte>, off: nat): (r: Option<seq<byte>>)
    ensures r.Some? <==> FrameSizeAt(z, data, off).Some?
    ensures r.Some? ==> r.value == data[off..off + FrameSizeAt(z, data, off).value]
  {
    match FrameSizeAt(z, data, off)
    case None => None
    case Some(n) => Some(data[off..off + n])
  }

  /** The decompressed size the frame at off declares. */
  function ContentSizeAt(z: Codec, data: seq<byte>, off: nat): (r: Option<nat>)
    ensures FrameSizeAt(z, data, off).None? ==> r.None?
    ensures FrameBytesAt(z, data, off).Some? ==> r == z.decompressedSize(FrameBytesAt(z, data, off).value)
  {
    match FrameBytesAt(z, data, off)
    case None => None
    case Some(f) => z.decompressedSize(f)
  }

  /** The decompressed content of the frame at off: the codec must accept its bytes and
      yield exactly the size the frame declares, or the frame is corrupt. */
  function DecompressAt(z: Codec, data: seq<byte>, off: nat): (r: Option<seq<byte>>)
    ensures r.Some? ==> ContentSizeAt(z, data, off) == Some(|r.value|)
    ensures r.Some? ==> z.decompress(FrameBytesAt(z, data, off).value) == r
    ensures FrameBytesAt(z, data, off).Some? ==>
      var f := FrameBytesAt(z, data, off).value;
      (r.Some? <==> z.decompress(f).Some? && z.decompressedSize(f) == Some(|z.decompress(f).value|))
  {
    match FrameBytesAt(z, data, off)
    case None => None
    case Some(f) =>
      match z.decompressedSize(f)
      case None => None
      case Some(n) =>
        match z.decompress(f)
        case None => None
        case Some(d) => if |d| == n then Some(d) else None
  }
}
