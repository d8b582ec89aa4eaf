/** The 256-byte .zus header and its field-by-field little-endian codec. */
module Header {
  import opened Wrappers
  import opened Bytes

  /** Size of the header, which is also where the user data begins. */
  const HEADER_SIZE: nat := 256

  /** Bytes 0-47 carry the fields; bytes 48-255 are zero padding. */
  const FIELDS_SIZE: nat := 48

  /** 'P' << 24 | 'S' << 16 | 'U' << 8 | 'Z'. */
  const MAGIC: u32 := 'P' as int * 0x100_0000 + 'S' as int * 0x1_0000 + 'U' as int * 0x100 + 'Z' as int

  datatype ZusHeader = ZusHeader(
    magic: u32,
    version: u32,
    maxDecompressedFrameSize: u64,
    frameCount: u32,
    arrayId: u32,
    subjectId: u32,
    imagingMethodId: u32,
    timestamp: u64,
    userDataTag: u32,
    userDataSize: u32)

  datatype HeaderError = Truncated | InvalidMagic | UnsupportedVersion

  /** The header's bytes: each field little-endian at its offset, then zero padding. */
  function Encode(h: ZusHeader): (r: seq<byte>)
    ensures |r| == HEADER_SIZE
    ensures forall i :: FIELDS_SIZE <= i < HEADER_SIZE ==> r[i] == 0
  {
    EncodeFields(h) + Zeros(HEADER_SIZE - FIELDS_SIZE)
  }

  /** Bytes 0-47: the ten fields in order. */
  function EncodeFields(h: ZusHeader): (r: seq<byte>)
    ensures |r| == FIELDS_SIZE
  {
    ToLE(h.magic, 4) + ToLE(h.version, 4) + ToLE(h.maxDecompressedFrameSize, 8)
    + ToLE(h.frameCount, 4) + ToLE(h.arrayId, 4) + ToLE(h.subjectId, 4)
    + ToLE(h.imagingMethodId, 4) + ToLE(h.timestamp, 8) + ToLE(h.userDataTag, 4)
    + ToLE(h.userDataSize, 4)
  }

  /** Each field sits, little-endian, at the offset the layout gives it. */
  lemma EncodeLayout(h: ZusHeader)
    ensures var r := Encode(h);
      && r[0..4] == ToLE(h.magic, 4) && r[4..8] == ToLE(h.version, 4)
      && r[8..16] == ToLE(h.maxDecompressedFrameSize, 8)
      && r[16..20] == ToLE(h.frameCount, 4)
      && r[20..24] == ToLE(h.arrayId, 4) && r[24..28] == ToLE(h.subjectId, 4)
      && r[28..32] == ToLE(h.imagingMethodId, 4)
      && r[32..40] == ToLE(h.timestamp, 8)
      && r[40..44] == ToLE(h.userDataTag, 4) && r[44..48] == ToLE(h.userDataSize, 4)
  {
    // Read off EncodeFields' concatenation; the slice lengths are fixed by ToLE's contract.
  }

  /** Reads every field at its offset; the padding is not looked at. */
  function ParseFields(b: seq<byte>): (h: ZusHeader)
    requires |b| >= FIELDS_SIZE
  {
    Pow256Widths();
    ZusHeader(
      FromLE(b[0..4]), FromLE(b[4..8]), FromLE(b[8..16]), FromLE(b[16..20]),
      FromLE(b[20..24]), FromLE(b[24..28]), FromLE(b[28..32]), FromLE(b[32..40]),
      FromLE(b[40..44]), FromLE(b[44..48]))
  }

  /** Decodes the header at the start of b, accepting versions up to maxVersion. */
  function Decode(b: seq<byte>, maxVersion: u32): (r: Result<ZusHeader, HeaderError>)
    ensures r == Err(Truncated) <==> |b| < HEADER_SIZE
    ensures r == Err(InvalidMagic) <==> |b| >= HEADER_SIZE && FromLE(b[0..4]) != MAGIC
    ensures r == Err(UnsupportedVersion) <==>
      |b| >= HEADER_SIZE && FromLE(b[0..4]) == MAGIC && FromLE(b[4..8]) > maxVersion
    ensures r.Ok? ==> r.value.magic == MAGIC && r.value.version <= maxVersion
  {
    if |b| < HEADER_SIZE then Err(Truncated)
    else if FromLE(b[0..4]) != MAGIC then Err(InvalidMagic)
    else if FromLE(b[4..8]) > maxVersion then Err(UnsupportedVersion)
    else Ok(ParseFields(b))
  }

  /** Every header reads back as itself from its encoding, whatever its field values. */
  lemma ParseFieldsEncode(h: ZusHeader)
    ensures ParseFields(Encode(h)) == h
  {
    Pow256Widths();
    EncodeLayout(h);
    FromLEToLE(h.magic, 4);
    FromLEToLE(h.version, 4);
    FromLEToLE(h.maxDecompressedFrameSize, 8);
    FromLEToLE(h.frameCount, 4);
    FromLEToLE(h.arrayId, 4);
    FromLEToLE(h.subjectId, 4);
    FromLEToLE(h.imagingMethodId, 4);
    FromLEToLE(h.timestamp, 8);
    FromLEToLE(h.userDataTag, 4);
    FromLEToLE(h.userDataSize, 4);
  }

  /** decode(encode(h)) == h for every header the reader accepts. */
  lemma DecodeEncode(h: ZusHeader, maxVersion: u32)
    requires h.magic == MAGIC && h.version <= maxVersion
    ensures Decode(Encode(h), maxVersion) == Ok(h)
  {
    ParseFieldsEncode(h);
  }

  /** Re-encoding a decoded header reproduces the field bytes exactly and writes zero padding. */
  lemma EncodeDecode(b: seq<byte>, maxVersion: u32)
    requires Decode(b, maxVersion).Ok?
    ensures Encode(Decode(b, maxVersion).value)[..FIELDS_SIZE] == b[..FIELDS_SIZE]
  {
    var h := Decode(b, maxVersion).value;
    var r := Encode(h);
    EncodeLayout(h);
    ToLEFromLE(b[0..4]);
    ToLEFromLE(b[4..8]);
    ToLEFromLE(b[8..16]);
    ToLEFromLE(b[16..20]);
    ToLEFromLE(b[20..24]);
    ToLEFromLE(b[24..28]);
    ToLEFromLE(b[28..32]);
    ToLEFromLE(b[32..40]);
    ToLEFromLE(b[40..44]);
    ToLEFromLE(b[44..48]);
    forall i | 0 <= i < FIELDS_SIZE ensures r[i] == b[i] {
      if i < 4 { assert r[i] == r[0..4][i]; assert b[i] == b[0..4][i]; }
      else if i < 8 { assert r[i] == r[4..8][i - 4]; assert b[i] == b[4..8][i - 4]; }
      else if i < 16 { assert r[i] == r[8..16][i - 8]; assert b[i] == b[8..16][i - 8]; }
      else if i < 20 { assert r[i] == r[16..20][i - 16]; assert b[i] == b[16..20][i - 16]; }
      else if i < 24 { assert r[i] == r[20..24][i - 20]; assert b[i] == b[20..24][i - 20]; }
      else if i < 28 { assert r[i] == r[24..28][i - 24]; assert b[i] == b[24..28][i - 24]; }
      else if i < 32 { assert r[i] == r[28..32][i - 28]; assert b[i] == b[28..32][i - 28]; }
      else if i < 40 { assert r[i] == r[32..40][i - 32]; assert b[i] == b[32..40][i - 32]; }
      else if i < 44 { assert r[i] == r[40..44][i - 40]; assert b[i] == b[40..44][i - 40]; }
      else { assert r[i] == r[44..48][i - 44]; assert b[i] == b[44..48][i - 44]; }
    }
  }

  /** The padding is ignored on read: buffers that agree on bytes 0-47 decode alike. */
  lemma DecodeIgnoresPadding(b1: seq<byte>, b2: seq<byte>, maxVersion: u32)
    requires |b1| >= HEADER_SIZE && |b2| >= HEADER_SIZE
    requires b1[..FIELDS_SIZE] == b2[..FIELDS_SIZE]
    ensures Decode(b1, maxVersion) == Decode(b2, maxVersion)
  {
    assert b1[0..4] == b1[..FIELDS_SIZE][0..4] == b2[..FIELDS_SIZE][0..4] == b2[0..4];
    assert b1[4..8] == b1[..FIELDS_SIZE][4..8] == b2[..FIELDS_SIZE][4..8] == b2[4..8];
    assert b1[8..16] == b2[8..16] by { assert b1[8..16] == b1[..FIELDS_SIZE][8..16]; assert b2[8..16] == b2[..FIELDS_SIZE][8..16]; }
    assert b1[16..20] == b2[16..20] by { assert b1[16..20] == b1[..FIELDS_SIZE][16..20]; assert b2[16..20] == b2[..FIELDS_SIZE][16..20]; }
    assert b1[20..24] == b2[20..24] by { assert b1[20..24] == b1[..FIELDS_SIZE][20..24]; assert b2[20..24] == b2[..FIELDS_SIZE][20..24]; }
    assert b1[24..28] == b2[24..28] by { assert b1[24..28] == b1[..FIELDS_SIZE][24..28]; assert b2[24..28] == b2[..FIELDS_SIZE][24..28]; }
    assert b1[28..32] == b2[28..32] by { assert b1[28..32] == b1[..FIELDS_SIZE][28..32]; assert b2[28..32] == b2[..FIELDS_SIZE][28..32]; }
    assert b1[32..40] == b2[32..40] by { assert b1[32..40] == b1[..FIELDS_SIZE][32..40]; assert b2[32..40] == b2[..FIELDS_SIZE][32..40]; }
    assert b1[40..44] == b2[40..44] by { assert b1[40..44] == b1[..FIELDS_SIZE][40..44]; assert b2[40..44] == b2[..FIELDS_SIZE][40..44]; }
    assert b1[44..48] == b2[44..48] by { assert b1[44..48] == b1[..FIELDS_SIZE][44..48]; assert b2[44..48] == b2[..FIELDS_SIZE][44..48]; }
  }

  /** The magic is written as the bytes 'Z', 'U', 'S', 'P'. */
  lemma MagicBytes(h: ZusHeader)
    requires h.magic == MAGIC
    ensures Encode(h)[..4] == ['Z' as byte, 'U' as byte, 'S' as byte, 'P' as byte]
  {
    EncodeLayout(h);
    assert Encode(h)[..4] == ToLE(MAGIC, 4);
    assert MAGIC == 0x5053_555A;
    assert ToLE(0x50, 1) == [0x50];
    assert ToLE(0x5053, 2) == [0x53, 0x50];
    assert ToLE(0x50_5355, 3) == [0x55, 0x53, 0x50];
    assert ToLE(0x5053_555A, 4) == [0x5A, 0x55, 0x53, 0x50];
  }

  /** Magic and version occupy bytes 0-7 whatever the other fields hold. */
  lemma MagicVersionPrefix(h1: ZusHeader, h2: ZusHeader)
    requires h1.magic == h2.magic && h1.version == h2.version
    ensures Encode(h1)[..8] == Encode(h2)[..8]
  {
    // Dafny reads this off the definition of Encode.
  }
}
