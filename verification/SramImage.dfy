/** The firmware image that an application leaves in the external SRAM, and the test the
    bootloader puts it to (Core/Src/spi_sram_image.c, Core/Inc/sram_image_header.h). */
module SramImage {
  import opened Bytes
  import opened FlashMemory
  import opened Checksum

  const MAGIC := 0x4D41_4253
  const HEADER := 12
  /** The part of the SRAM that header and image may occupy. */
  const REGION := HEADER + PAYLOAD
  const CHUNK := 256

  predicate IsSram(sram: seq<byte>) {
    REGION <= |sram| < U32
  }

  function ImageOffset(sram: seq<byte>): (n: nat)
    requires IsSram(sram)
  {
    Le32(sram, 4)
  }

  function ImageSize(sram: seq<byte>): (n: nat)
    requires IsSram(sram)
  {
    Le32(sram, 8)
  }

  /** spi_sram_read fails on an empty read only. */
  function SramChunk(sram: seq<byte>, addr: nat, len: nat): (c: Chunk)
    ensures c.Delivered? ==> |c.data| == len
    ensures 0 < len && addr + len <= |sram| ==> c == Delivered(sram[addr..addr + len])
  {
    if len == 0 then ReadError
    else if addr + len <= |sram| then Delivered(sram[addr..addr + len])
    else Delivered(Fill(len, 0))
  }

  function SramRead(sram: seq<byte>): (r: Reader)
    ensures Honest(r) && ReadsMemory(r, sram)
  {
    (addr: nat, len: nat) => SramChunk(sram, addr, len)
  }

  /** The checks on the three header fields, in the order and the 32-bit arithmetic of the source. */
  predicate HeaderAccepted(sram: seq<byte>)
    requires IsSram(sram)
  {
    var offset, size := ImageOffset(sram), ImageSize(sram);
    if Le32(sram, 0) != MAGIC then false
    else if size == 0 then false
    else if size % 4 != 0 then false
    else if offset < HEADER then false
    else if size > PAYLOAD then false
    else if offset > HEADER + PAYLOAD then false
    else if offset > U32 - 1 - size then false
    else (offset + size) % U32 <= HEADER + PAYLOAD
  }

  /** sram_has_valid_image. */
  predicate HasValidImage(sram: seq<byte>)
    requires IsSram(sram)
  {
    && HeaderAccepted(sram)
    && StreamFrom(XOR_START, SramRead(sram), Plan(ImageOffset(sram), ImageSize(sram), CHUNK)) == Sum(0)
  }

  lemma HeaderBounds(sram: seq<byte>)
    requires IsSram(sram) && HeaderAccepted(sram)
    ensures HEADER <= ImageOffset(sram) && ImageOffset(sram) + ImageSize(sram) <= REGION
  {
    hide Le32;
  }

  /** What the checks amount to, without the wrapping. */
  lemma HeaderExactly(sram: seq<byte>)
    requires IsSram(sram)
    ensures HeaderAccepted(sram) <==>
      && sram[..4] == [0x53, 0x42, 0x41, 0x4D]
      && 0 < ImageSize(sram) <= 120 * 1024 && ImageSize(sram) % 4 == 0
      && 12 <= ImageOffset(sram) && ImageOffset(sram) + ImageSize(sram) <= 12 + 120 * 1024
  {
    MagicBytes(sram);
    hide Le32;
  }

  lemma MagicBytes(sram: seq<byte>)
    requires IsSram(sram)
    ensures Le32(sram, 0) == MAGIC <==> sram[..4] == [0x53, 0x42, 0x41, 0x4D]
  {
    Le32Bytes(sram, 0);
    var m := sram[..4];
    assert m[0] == sram[0] && m[1] == sram[1] && m[2] == sram[2] && m[3] == sram[3];
  }

  /** Where the header has its fields, and in which byte order. */
  lemma HeaderFields(sram: seq<byte>)
    requires IsSram(sram)
    ensures ImageOffset(sram) == Number(sram[4], sram[5], sram[6], sram[7])
    ensures ImageSize(sram) == Number(sram[8], sram[9], sram[10], sram[11])
  {
    Le32Bytes(sram, 4);
    Le32Bytes(sram, 8);
  }

  /** The image the header points to. */
  function Image(sram: seq<byte>): (image: seq<byte>)
    requires IsSram(sram) && HeaderAccepted(sram)
    ensures |image| == ImageSize(sram) && 0 < |image| <= PAYLOAD && |image| % 4 == 0
  {
    HeaderBounds(sram);
    sram[ImageOffset(sram)..ImageOffset(sram) + ImageSize(sram)]
  }

  /** An accepted image lies behind the header and inside its region, so that every read of the
      check is in bounds, and the streamed check is the simple check on its words. */
  lemma ValidImageIsSound(sram: seq<byte>)
    requires IsSram(sram)
    ensures HeaderAccepted(sram) ==> HEADER <= ImageOffset(sram) && ImageOffset(sram) + ImageSize(sram) <= REGION
    ensures HeaderAccepted(sram) ==>
      Covers(Plan(ImageOffset(sram), ImageSize(sram), CHUNK), ImageOffset(sram), ImageSize(sram), CHUNK)
    ensures HasValidImage(sram) <==>
      HeaderAccepted(sram) && Validates(Image(sram), ImageSize(sram) / 4)
  {
    hide Validates, StreamFrom, Plan, Le32;
    if HeaderAccepted(sram) {
      PlanCovers(ImageOffset(sram), ImageSize(sram), CHUNK);
      StreamRefinesCheck(SramRead(sram), sram, ImageOffset(sram), ImageSize(sram), CHUNK);
    }
  }

  /** Without the first byte of the magic number there is no image. */
  lemma ClearedHeaderIsInvalid(sram: seq<byte>)
    requires IsSram(sram) && sram[0] == 0
    ensures !HasValidImage(sram)
  {
    hide Plan, StreamFrom;
    assert Le32(sram, 0) % 256 == 0;
  }
}
