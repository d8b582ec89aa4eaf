# A verified model of the .zus (zemp_us_pack) container reader

The .zus format stores a sequence of independently zstd-compressed data frames behind a
fixed 256-byte header and an opaque user-data blob. Every structural region starts on a
256-byte boundary, so a memory-mapped file can be indexed frame by frame without
decompressing the whole file. This project models the format and its reader contract as
`zemp_us_pack.h` describes them:

- `Bytes`: `u32`/`u64`/`byte` and little-endian serialisation (`ToLE`, `FromLE`) with both
  round trips.
- `Align`: `AlignUp`, the ceiling to a 256-byte boundary that the layout description asks
  for (`ZUS_ALIGNMENT`). It also holds `AlignMacro`, the `ZUS_ALIGN` macro exactly as written,
  with the inputs on which it goes wrong (see Findings).
- `Header`: the header as a datatype, with `Encode` (each field little-endian at its offset,
  then zero padding up to byte 255) and `Decode` (`Truncated`, `InvalidMagic`,
  `UnsupportedVersion`, otherwise the fields). The lemmas cover both round trips, the
  `'Z','U','S','P'` magic bytes, magic and version fixed at bytes 0-7, and the padding being
  ignored on read.
- `Zstd`: the zstd library as three function values inside a datatype. The first is
  `ZSTD_findFrameCompressedSize`, which takes the bytes from a supposed frame start and
  returns a size or fails. The second is the decompressed-size query on one frame, which
  returns the content size the frame declares or fails. The third is one-shot decompression,
  which returns the content or fails. Content whose length differs from the declared size
  counts as a corrupt frame.
- `Reader`: the frame walk as specification functions and the three reader entry points as
  methods over the caller's arrays. `SkipFrames` and `FrameStarts` are the walk; `Frame`,
  `FrameAt` and `FramePointers` give what each entry point returns; `GetFrame`, `GetFrameAt`
  and `ExtractFramePointers` are the entry points.

The byte sequence `data` given to the reader is the whole file, header included. Offsets are
indices into it. Frame 0 starts at `AlignUp(256 + user_data_size)`, and frame i+1 starts at
`AlignUp(start_i + compressed_size_i)`. An alignment of offsets stands for the alignment of
addresses in the source, which holds when the buffer's base is itself 256-byte aligned.
Entry points return a `Status` (`Success`, `InvalidFrame`, `InvalidData`, `BufferTooSmall`)
in place of the `ZUS_ERR_*` codes. The order in which the errors are checked is one of the
choices listed below.

Choices where the header file leaves the behaviour open:

- The header file lists the return codes of `zus_get_frame` but gives no order for the
  checks. The model checks in this order:
  1. the index range;
  2. the size query at every boundary up to and including the requested frame;
  3. the frame's declared decompressed size against the output capacity;
  4. decompression.

  So a frame that is too large for the buffer is reported as `BufferTooSmall` even if its
  body is corrupt.
- A well-formed zstd frame that declares no content size gets no answer from the
  decompressed-size query. The model reports it as `InvalidData`, although the data does
  hold a zstd frame. In that case the return code means "not readable by this reader"
  rather than "not zstd data".
- `AlignMacro` wraps at 2^64, which is `uintptr_t` on a 64-bit target. On a 32-bit target
  the macro wraps at 2^32, which the model does not cover.
- The layout comment is headed "64-Bytes of Metadata", while the same comment puts the
  padding up to byte 255 and the user data at byte 256. The model follows the 256-byte
  header.
- The layout comment puts the user-data tag at bytes 39-43 and the padding at bytes 47-255.
  Both overlap their neighbours: the timestamp ends at byte 39 and the user-data size ends at
  byte 47. The model uses bytes 40-43 for the tag and bytes 48-255 for the padding.
- The header file defines no version number. `Decode` therefore takes the highest version the
  reader understands as a parameter and rejects anything newer.
- `zus_extract_frame_pointers` queries the size of every frame it records, the last one
  included. So every recorded offset is a frame that `zus_get_frame_at` can at least size.
- The prototypes pass `compressed_data` as a bare pointer with no length. The length
  `|data|` of the model's byte sequence is the model's own addition, a stand-in for the
  extent of the mapped file. The abstract size query may answer more bytes than are left
  after the offset, or the offset may lie past the end of the data. Both count as a failed
  query (`InvalidData`), because zstd reports a truncated frame as an error.
- The prototypes return an `i32` code and take `out_buffer_size` as a signed `size`
  (`ptrdiff_t`). The model returns a `Status` and takes the capacity to be `out.Length`.
  For `zus_extract_frame_pointers` the size is read as a number of pointer slots, not a
  number of bytes.
- `GetFrameAt` leaves `out` untouched on every error. When it succeeds, only the first
  `|content|` bytes change.

## Model

| member | source | states |
|---|---|---|
| Bytes.FromLEToLE | zemp_us_pack.h:32-35 | reading back the n little-endian bytes of any value below 256^n gives the value |
| Bytes.ToLEFromLE | zemp_us_pack.h:32-35 | re-encoding the value read from any byte string gives the same bytes |
| Align.AlignUp | zemp_us_pack.h:65-68 | the result is a multiple of 256, at least the offset and less than the offset plus 256 |
| Align.AlignUpIsLeast | zemp_us_pack.h:37 | no multiple of 256 at or above the offset is smaller than the result, so it is the smallest boundary |
| Align.AlignUpFixedPoints | zemp_us_pack.h:74-77 | an offset is left unchanged if and only if it is already a multiple of 256 |
| Align.AlignUpIdempotent | zemp_us_pack.h:66-68 | rounding an aligned offset again changes nothing |
| Align.AlignUpMonotonic | zemp_us_pack.h:66-68 | rounding preserves the order of offsets |
| Align.AlignMacro | zemp_us_pack.h:77 | the macro as written either leaves p unchanged or adds a full 256, modulo 2^64; it never rounds to the nearest boundary |
| Align.AlignMacroOverPadsZero | zemp_us_pack.h:77 | the macro maps the aligned offset 0 to 256, where the ceiling gives 0 |
| Align.AlignMacroMisalignsOne | zemp_us_pack.h:77 | the macro maps 1 to 1, which is not on a boundary, where the ceiling gives 256 |
| Header.Encode | zemp_us_pack.h:41-59 | the encoding is exactly 256 bytes and bytes 48-255 are zero |
| Header.EncodeLayout | zemp_us_pack.h:43-57 | each field sits little-endian at its offset: magic 0-3, version 4-7, max frame size 8-15, frame count 16-19, array/subject/imaging-method IDs 20-31, timestamp 32-39, user-data tag 40-43, user-data size 44-47 |
| Header.Decode | zemp_us_pack.h:43-45 | Truncated exactly when fewer than 256 bytes; InvalidMagic exactly when bytes 0-3 are not the magic; UnsupportedVersion exactly when the magic matches and the version is above the supported one; an accepted header carries the magic and a supported version |
| Header.ParseFieldsEncode | zemp_us_pack.h:41-57 | reading the fields of an encoded header gives back every field, for all field values |
| Header.DecodeEncode | zemp_us_pack.h:32-57 | decode(encode(h)) == h for every header with the magic and a supported version |
| Header.EncodeDecode | zemp_us_pack.h:41-57 | re-encoding a decoded header reproduces bytes 0-47 of the input |
| Header.DecodeIgnoresPadding | zemp_us_pack.h:59 | two buffers that agree on bytes 0-47 decode to the same result, whatever their padding |
| Header.MagicBytes | zemp_us_pack.h:44 | the magic 'P'<<24 \| 'S'<<16 \| 'U'<<8 \| 'Z' is written as the bytes 'Z','U','S','P' |
| Header.MagicVersionPrefix | zemp_us_pack.h:43-45 | bytes 0-7 depend only on magic and version, not on the other fields |
| Zstd.FrameSizeAt | zemp_us_pack.h:66-67 | succeeds exactly when the offset is within the data and the zstd size query on the remaining bytes answers a length that fits; the answer is then the query's own, and the frame lies wholly inside the data |
| Zstd.ContentSizeAt | zemp_us_pack.h:118 | for a frame whose size query succeeds, the result is the codec's declared size for exactly that frame's bytes; otherwise there is none |
| Zstd.DecompressAt | zemp_us_pack.h:117 | for a frame whose size query succeeds, content exists exactly when the codec decompresses the frame's bytes to the length the frame declares, and it is that decompression |
| Reader.FirstFrameStart | zemp_us_pack.h:61-65 | frame 0 starts on a boundary at or after the end of the user data (256 + user data size) and less than 256 bytes after it |
| Reader.SkipFrames | zemp_us_pack.h:66-68 | the walk never moves backwards and, from a boundary, always lands on a boundary |
| Reader.FrameStarts | zemp_us_pack.h:66-68 | k starts, the first at the given offset; every recorded frame answers the size query; start i equals AlignUp(start i-1 + size i-1); every later start is a multiple of 256 |
| Reader.SkipFramesSucc | zemp_us_pack.h:66-68 | frame k+1 starts at AlignUp(start of frame k + its compressed size), and the walk fails if that size query fails |
| Reader.FrameStartsSkip | zemp_us_pack.h:130-137 | the index walk over k frames succeeds exactly when skipping k frames does, and entry i is where skipping i frames lands |
| Reader.FrameStartsOrdered | zemp_us_pack.h:66-68 | frame starts never decrease, and they strictly increase when every compressed size is positive |
| Reader.FrameAt | zemp_us_pack.h:122-128 | get_frame_at fails only with InvalidData or BufferTooSmall; BufferTooSmall exactly when the frame's declared size exceeds the buffer; success exactly when the declared size fits and the frame decompresses; the result is then that content |
| Reader.Frame | zemp_us_pack.h:113-121 | get_frame returns InvalidFrame exactly when frame_idx >= frame_count; no error is Success; on success the content fits the buffer |
| Reader.FrameInvalidData | zemp_us_pack.h:117 | get_frame returns InvalidData when the size query fails at any boundary up to and including frame_idx |
| Reader.FrameOutcome | zemp_us_pack.h:113-121 | for an index in range, BufferTooSmall exactly when frame idx declares more than the capacity; success exactly when it declares at most the capacity and decompresses; the result is then that content |
| Reader.FramePointers | zemp_us_pack.h:130-137 | BufferTooSmall exactly when there are fewer slots than frames; success exactly when there are enough slots and every boundary up to frame_count parses; entry i is then the start of frame i (where skipping i frames lands), and every entry is a multiple of 256 |
| Reader.FramePointersAligned | zemp_us_pack.h:37 | the index holds frame_count entries; entry 0 is the first frame start; each entry is on a boundary and starts a frame that answers the size query |
| Reader.PointerIndexConsistency | zemp_us_pack.h:122-137 | get_frame_at on entry i of the extracted index gives the same result as get_frame(i), for every buffer size |
| Reader.GetFrameAt | zemp_us_pack.h:127-128 | returns FrameAt's status; on success out starts with the frame's content and the remaining bytes are unchanged; on error out is unchanged |
| Reader.GetFrame | zemp_us_pack.h:120-121 | the loop walks to frame idx; returns Frame's status; on success out starts with the content and the rest is unchanged; on error out is unchanged |
| Reader.ExtractFramePointers | zemp_us_pack.h:136-137 | returns FramePointers' status; on success slot i holds the start of frame i for every i < frame_count; slots from frame_count on are unchanged; out is untouched on BufferTooSmall |

## Left out

- Packing (`zus_push_frame`, `zus_pack_finish`) and the `ZUSStream` state (write index,
  capacity, flush callback): the header file gives only their prototypes. It states no
  behaviour for them, so no write-side semantics are modelled.
- zstd itself (`ZSTD_findFrameCompressedSize`, decompression, compression): a foreign
  library. It appears only as the three function values of `Zstd.Codec`.
- Reading the header by casting the mapped bytes into a C struct: only the explicit
  byte-level codec is modelled.
- The `zus_f32` float typedef and the `zus_i16` typedef: the reader does not use them.
- `out_buffer_size` as a separate argument: it is modelled as `out.Length`. A negative size,
  or a size smaller than the real buffer, is not modelled.
- `main.c` (file, mmap and printf driver with an unfinished packing loop) and
  `zemp_us_pack.c` (an older, conflicting layout description): neither is part of this model.
- Reader.GetFrameAt: the source also passes the header to `zus_get_frame_at`. It plays no
  part in reading the frame at the given offset, so the model omits it.
- Reader: offsets are unbounded naturals. Pointer wrap-around at 2^64 is not modelled,
  because every offset the walk accepts lies inside the byte sequence.
- Reader.ExtractFramePointers: on InvalidData the slots already written before the failing
  boundary are not described; only the slots from frame_count on are promised unchanged.

## Findings

| source | as written | input that shows it | evidently intended | confidence | as-written member | corrected member |
|---|---|---|---|---|---|---|
| zemp_us_pack.h:77 | `(p) + (ZUS_ALIGNMENT - (uintptr_t)(p) & ZUS_ALIGNMENT)` parses as `p + ((256 - p) & 256)` | p = 0 gives 256 (an aligned offset padded by a full block); p = 1 gives 1 (not aligned) | the smallest multiple of 256 that is at least p, e.g. `p + ((256 - p) & 255)` | high; not executed | Align.AlignMacroOverPadsZero | Align.AlignUp |
