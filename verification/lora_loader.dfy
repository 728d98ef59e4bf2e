/** The GGUF LoRA header check (core/src/model/lora_loader.rs): the first bytes of the file
    must carry the GGUF magic and a format version of at least 3.0; the tensor count is read
    from the header. The file itself is replaced by the bytes that were read from it. */
module LoraLoader {
  import opened Wrappers
  import opened Base64

  /** The size of the header buffer `validate` reads into. */
  const HEADER_SIZE: nat := 1024

  /** The magic number, a little-endian u32. */
  const GGUF_MAGIC: nat := 0x4655_4747

  /** The ASCII bytes "GGUF". */
  const GGUF_BYTES: seq<byte> := [0x47, 0x47, 0x55, 0x46]

  datatype ModelError = Io | InvalidGguf | VersionIncompatible | CorruptedFile

  /** `LoraMetadata`; the version is kept as the bit pattern of the f32. */
  datatype LoraMetadata = LoraMetadata(tensorCount: nat, version: nat, estimatedVram: nat)

  /** `u32::from_le_bytes` of the four bytes starting at `at`. */
  function LeU32(b: seq<byte>, at: nat): (v: nat)
    requires at + 4 <= |b|
    ensures v < 0x1_0000_0000
    ensures v % 256 == b[at] as nat && v / 0x100_0000 == b[at + 3] as nat
  {
    b[at] as nat + 256 * (b[at + 1] as nat + 256 * (b[at + 2] as nat + 256 * (b[at + 3] as nat)))
  }

  /** `u32::to_le_bytes`, the inverse of `LeU32`. */
  function LeBytes(v: nat): (b: seq<byte>)
    requires v < 0x1_0000_0000
    ensures |b| == 4
  {
    [(v % 256) as byte, (v / 256 % 256) as byte, (v / 256 / 256 % 256) as byte, (v / 256 / 256 / 256) as byte]
  }

  /** Division and remainder by 256 are determined by any quotient and remainder that
      rebuild the dividend. */
  lemma Digit(n: int, hi: int, lo: int)
    requires 0 <= lo < 256 && n == hi * 256 + lo
    ensures n / 256 == hi && n % 256 == lo
  {
  }

  /** The little-endian value of a value's bytes is the value. */
  lemma LeValueOfBytes(v: nat)
    requires v < 0x1_0000_0000
    ensures LeU32(LeBytes(v), 0) == v
  {
    var q1 := v / 256;
    var q2 := q1 / 256;
    var q3 := q2 / 256;
    assert LeBytes(v) == [(v % 256) as byte, (q1 % 256) as byte, (q2 % 256) as byte, q3 as byte];
  }

  /** The bytes of four bytes' little-endian value are those bytes. */
  lemma LeBytesOfValue(b: seq<byte>, at: nat)
    requires at + 4 <= |b|
    ensures LeBytes(LeU32(b, at)) == b[at..at + 4]
  {
    var b0, b1, b2, b3 := b[at] as int, b[at + 1] as int, b[at + 2] as int, b[at + 3] as int;
    var q2 := b2 + 256 * b3;
    var q1 := b1 + 256 * q2;
    var w := b0 + 256 * q1;
    assert w == LeU32(b, at);
    Digit(w, q1, b0);
    Digit(q1, q2, b1);
    Digit(q2, b3, b2);
    assert LeBytes(w) == [b[at], b[at + 1], b[at + 2], b[at + 3]];
  }

  /** The magic check accepts exactly the bytes "GGUF". */
  lemma MagicIsGguf(b: seq<byte>)
    requires |b| >= 4
    ensures LeU32(b, 0) == GGUF_MAGIC <==> b[..4] == GGUF_BYTES
  {
    LeBytesOfValue(b, 0);
    LeValueOfBytes(GGUF_MAGIC);
    assert LeBytes(GGUF_MAGIC) == GGUF_BYTES;
  }

  /** An f32 bit pattern is a NaN: all exponent bits set and a non-zero fraction. */
  predicate Nan32(bits: nat) {
    bits / 0x80_0000 % 256 == 255 && bits % 0x80_0000 != 0
  }

  /** `version < 3.0` for the f32 with these bits. A NaN compares false; every other
      pattern with the sign bit set (the negatives and -0.0) is below 3.0; a non-negative
      value is below 3.0 exactly when its bits are below those of 3.0, 0x40400000, since
      IEEE 754 orders the non-negative numbers as their bit patterns. */
  predicate BelowThree(bits: nat)
    requires bits < 0x1_0000_0000
  {
    !Nan32(bits) && (bits >= 0x8000_0000 || bits < 0x4040_0000)
  }

  /** `validate`, on the outcome of opening and reading the file (`read`: the bytes read
      into the 1024-byte buffer, None when opening or reading failed) and of asking its
      size (`fileSize`, None when that failed). The checks run in the order length,
      magic, version, and the first that fails decides the error. `estimate` stands for
      `estimate_vram`. */
  function Validate(read: Option<seq<byte>>, fileSize: Option<nat>, estimate: nat -> nat)
    : (r: Result<LoraMetadata, ModelError>)
    requires read.Some? ==> |read.value| <= HEADER_SIZE
    ensures read.None? ==> r == Err(Io)
    ensures read.Some? ==> (r == Err(CorruptedFile) <==> |read.value| < 16)
    ensures read.Some? ==>
      (r == Err(InvalidGguf) <==> |read.value| >= 16 && read.value[..4] != GGUF_BYTES)
    ensures read.Some? ==>
      (r == Err(VersionIncompatible) <==>
         |read.value| >= 16 && read.value[..4] == GGUF_BYTES && BelowThree(LeU32(read.value, 4)))
    ensures r.Ok? <==>
      read.Some? && |read.value| >= 16 && read.value[..4] == GGUF_BYTES
      && !BelowThree(LeU32(read.value, 4)) && fileSize.Some?
    ensures r.Ok? ==>
      r.value == LoraMetadata(LeU32(read.value, 8), LeU32(read.value, 4), estimate(fileSize.value))
  {
    if read.None? then Err(Io)
    else
      var header := read.value;
      if |header| < 16 then Err(CorruptedFile)
      else if LeU32(header, 0) != GGUF_MAGIC then MagicIsGguf(header); Err(InvalidGguf)
      else
        MagicIsGguf(header);
        var version := LeU32(header, 4);
        if BelowThree(version) then Err(VersionIncompatible)
        else
          var tensorCount := LeU32(header, 8);
          if fileSize.None? then Err(Io)
          else Ok(LoraMetadata(tensorCount, version, estimate(fileSize.value)))
  }

  /** What `File::read` leaves in the buffer for a regular file: as many of its bytes as
      fit. */
  function HeaderOf(file: seq<byte>): (header: seq<byte>)
    ensures |header| <= HEADER_SIZE
    ensures |file| <= HEADER_SIZE ==> header == file
    ensures |file| > HEADER_SIZE ==> |header| == HEADER_SIZE
    ensures file[..|header|] == header
  {
    if |file| <= HEADER_SIZE then file else file[..HEADER_SIZE]
  }

  /** Only the first 1024 bytes are examined: two files that agree there, and have the
      same size, validate alike. */
  lemma OnlyHeaderExamined(f: seq<byte>, g: seq<byte>, size: Option<nat>, estimate: nat -> nat)
    requires |f| > HEADER_SIZE && |g| > HEADER_SIZE && f[..HEADER_SIZE] == g[..HEADER_SIZE]
    ensures Validate(Some(HeaderOf(f)), size, estimate) == Validate(Some(HeaderOf(g)), size, estimate)
  {
  }
}
