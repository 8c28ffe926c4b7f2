/**
 * The host tool that writes the OTA_METADATA_SPACE bytes placed in front of a
 * firmware image: a metadata record holding the image's CRC16, size, UUID and
 * version, then 0xFF up to where the image starts. The tool runs on a
 * little-endian host that aligns uint32_t to 4 bytes, so its record is the
 * 16-byte OTA_metadata_t of the slot manager; the version is parsed as a
 * 32-bit value over the version field and the tail padding after it.
 */
module GenerateMetadata {
  import opened UInt
  import opened Crc
  import opened Flash
  import opened Fota

  const FLASH_WORD_SIZE: nat := 4
  /** The 0xFF bytes between the record and the image. */
  const BLANK_LENGTH: nat := 240
  /** The bytes the `blank_buffer` loop fills. */
  function Blank(): Bytes
  {
    seq(BLANK_LENGTH, _ => ERASED)
  }

  /** `firmware_size` is a uint32_t. */
  const SIZE_RANGE: nat := 0x1_0000_0000

  /** The bytes of an n-byte file that fread hands over as whole FLASH_WORD_SIZE items. */
  function WholeWords(n: nat): (r: nat)
    ensures r % FLASH_WORD_SIZE == 0 && r <= n < r + FLASH_WORD_SIZE
  {
    n - n % FLASH_WORD_SIZE
  }

  /** A length with `w` whole words and less than a word more. */
  lemma WholeWordsOf(n: nat, w: nat)
    requires FLASH_WORD_SIZE * w <= n < FLASH_WORD_SIZE * w + FLASH_WORD_SIZE
    ensures WholeWords(n) == FLASH_WORD_SIZE * w
  {
  }

  /** `firmware_size` wraps at 2^32, which keeps it a multiple of the word size. */
  lemma WrappedSizeAligned(n: nat)
    ensures WholeWords(n) % SIZE_RANGE % FLASH_WORD_SIZE == 0
  {
    var x := WholeWords(n);
    var k := x / FLASH_WORD_SIZE;
    var q := x / SIZE_RANGE;
    assert x == FLASH_WORD_SIZE * k;
    assert x % SIZE_RANGE == FLASH_WORD_SIZE * (k - 0x4000_0000 * q);
  }

  /** One more word read by `crc_calc`: the register moves on by that word. */
  lemma NextWord(init: Bits, file: Bytes, done: nat)
    requires |init| == 16 && done + FLASH_WORD_SIZE <= |file|
    ensures Feed(init, file[..done + FLASH_WORD_SIZE]) == Feed(Feed(init, file[..done]), file[done..done + FLASH_WORD_SIZE])
  {
    var before, word := file[..done], file[done..done + FLASH_WORD_SIZE];
    assert before + word == file[..done + FLASH_WORD_SIZE];
    FeedAppend(init, before, word);
  }

  /** Adding to a wrapped uint32_t wraps the sum. */
  lemma WrapAdd(a: nat, b: nat)
    ensures (a % SIZE_RANGE + b) % SIZE_RANGE == (a + b) % SIZE_RANGE
  {
    var q := a / SIZE_RANGE;
    assert a == SIZE_RANGE * q + a % SIZE_RANGE;
    assert a + b == SIZE_RANGE * q + (a % SIZE_RANGE + b);
    ModShift(a % SIZE_RANGE + b, q);
  }

  lemma {:induction false} ModShift(x: nat, q: nat)
    ensures (SIZE_RANGE * q + x) % SIZE_RANGE == x % SIZE_RANGE
  {
    if q > 0 {
      ModShift(x, q - 1);
      assert SIZE_RANGE * q + x == SIZE_RANGE * (q - 1) + x + SIZE_RANGE;
    }
  }

  /** The record the tool writes for `file`. */
  function Record(file: Bytes, verified: int, version: uint32, uuid: uint32): Metadata
  {
    var crc := ImageCrc(file[..WholeWords(|file|)]);
    Metadata(crc, if verified != 0 then crc else 0, WholeWords(|file|) % SIZE_RANGE, uuid,
             version % 0x1_0000, version / 0x1_0000)
  }

  /** The size field of a record for a file under 4 GiB is the checksummed length. */
  lemma RecordSize(file: Bytes, verified: int, version: uint32, uuid: uint32)
    requires |file| < SIZE_RANGE
    ensures Record(file, verified, version, uuid).size == WholeWords(|file|)
  {
    Unwrapped(WholeWords(|file|));
  }

  lemma Unwrapped(x: nat)
    requires x < SIZE_RANGE
    ensures x % SIZE_RANGE == x
  {
  }

  /** A whole number of words needs no rounding up. */
  lemma WholeWordsRoundUp(n: nat)
    ensures 4 * ((WholeWords(n) + 3) / 4) == WholeWords(n)
  {
    var q := n / FLASH_WORD_SIZE;
    assert WholeWords(n) == 4 * q;
    RoundUp(4 * q, q);
  }

  /** The fields `main` assembles from crc_calc's results form the record. */
  lemma RecordOf(file: Bytes, verified: int, version: uint32, uuid: uint32, crc: uint16, size: uint32)
    requires crc == ImageCrc(file[..WholeWords(|file|)]) && size == (0 + WholeWords(|file|)) % SIZE_RANGE
    ensures Metadata(crc, if verified != 0 then crc else 0, size, uuid, version % 0x1_0000, version / 0x1_0000)
            == Record(file, verified, version, uuid)
  {
  }

  /** firmware-metadata.bin: the record, then BLANK_LENGTH bytes of 0xFF. */
  function MetadataFile(file: Bytes, verified: int, version: uint32, uuid: uint32): Bytes
  {
    EncodeMetadata(Record(file, verified, version, uuid)) + Blank()
  }

  /**
   * The tool's state: the global `firmware_size` and the `firmware_bin`
   * stream, a file's contents and the position reached in it.
   */
  class Generator {
    var firmwareSize: uint32
    const file: Bytes
    var position: nat

    predicate Valid()
      reads this
    {
      position <= |file|
    }

    constructor (file: Bytes)
      ensures Valid() && this.file == file && position == 0 && firmwareSize == 0
    {
      this.file := file;
      position := 0;
      firmwareSize := 0;
    }

    /**
     * `fread(word, FLASH_WORD_SIZE, 1, firmware_bin)`: one item when a whole
     * word remains, else 0 items and the remaining bytes consumed.
     */
    method ReadWord() returns (word: Bytes, nret: nat)
      requires Valid()
      modifies this`position
      ensures old(position) + FLASH_WORD_SIZE <= |file| ==> nret == 1 && position == old(position) + FLASH_WORD_SIZE
      ensures old(position) + FLASH_WORD_SIZE > |file| ==> nret == 0 && position == |file|
      ensures Valid() && word == file[old(position)..position]
    {
      if position + FLASH_WORD_SIZE <= |file| {
        word, nret := file[position..position + FLASH_WORD_SIZE], 1;
        position := position + FLASH_WORD_SIZE;
      } else {
        word, nret := file[position..], 0;
        position := |file|;
      }
    }

    /** `crc_calc_word`: the word's bytes through crc16, and four more bytes counted. */
    method CrcCalcWord(word: Bytes, imageCrc: Bits) returns (crc: Bits)
      requires |word| == FLASH_WORD_SIZE && |imageCrc| == 16
      modifies this`firmwareSize
      ensures crc == Feed(imageCrc, word)
      ensures firmwareSize == (old(firmwareSize) + FLASH_WORD_SIZE) % SIZE_RANGE
    {
      crc := FeedBytes(imageCrc, word);
      firmwareSize := (firmwareSize + FLASH_WORD_SIZE) % SIZE_RANGE;
    }

    /**
     * `crc_calc`: whole words until fread returns 0, then two zero bytes.
     * fread counts whole items only, so the `if (nret)` branch after the
     * loop never runs and a trailing partial word is neither checksummed nor
     * counted.
     */
    method CrcCalc() returns (crc: uint16)
      requires Valid() && position == 0
      modifies this`firmwareSize, this`position
      ensures Valid() && position == |file|
      ensures crc == ImageCrc(file[..WholeWords(|file|)])
      ensures firmwareSize == (old(firmwareSize) + WholeWords(|file|)) % SIZE_RANGE
    {
      var imageCrc := CrcCalcWords(ZERO);
      imageCrc := Crc16(imageCrc, 0);
      imageCrc := Crc16(imageCrc, 0);
      Pow2Of16();
      crc := ValueOf(imageCrc);
    }

    /** The loop of `crc_calc`, from a register holding `init`. */
    method CrcCalcWords(init: Bits) returns (imageCrc: Bits)
      requires Valid() && position == 0 && |init| == 16
      modifies this`firmwareSize, this`position
      ensures Valid() && position == |file|
      ensures imageCrc == Feed(init, file[..WholeWords(|file|)])
      ensures firmwareSize == (old(firmwareSize) + WholeWords(|file|)) % SIZE_RANGE
    {
      imageCrc := init;
      var nret := 1;
      ghost var words: nat := 0;
      while nret == 1
        invariant Valid() && FLASH_WORD_SIZE * words <= |file|
        invariant imageCrc == Feed(init, file[..FLASH_WORD_SIZE * words])
        invariant firmwareSize == (old(firmwareSize) + FLASH_WORD_SIZE * words) % SIZE_RANGE
        invariant nret == 1 ==> position == FLASH_WORD_SIZE * words
        invariant nret != 1 ==> position == |file| < FLASH_WORD_SIZE * words + FLASH_WORD_SIZE
        decreases |file| - position, nret
      {
        var word;
        word, nret := ReadWord();
        if nret == 1 {
          imageCrc := CrcCalcWord(word, imageCrc);
          NextWord(init, file, FLASH_WORD_SIZE * words);
          WrapAdd(old(firmwareSize) + FLASH_WORD_SIZE * words, FLASH_WORD_SIZE);
          words := words + 1;
        }
      }
      WholeWordsOf(|file|, words);
    }

    /**
     * `main` given `arguments` command-line arguments (argc - 1), the value
     * sscanf reads from the fourth (`verified`) and the hex values it reads
     * from the second and third. With fewer than four arguments it returns
     * -1 and writes nothing; otherwise it returns 0 and writes `output` to
     * firmware-metadata.bin.
     */
    method Run(arguments: nat, verified: int, version: uint32, uuid: uint32) returns (status: int, output: Bytes)
      requires Valid() && firmwareSize == 0
      modifies this`firmwareSize, this`position
      ensures arguments < 4 ==> status == -1 && output == []
      ensures arguments >= 4 ==> status == 0 && output == MetadataFile(file, verified, version, uuid)
    {
      if arguments < 4 {
        return -1, [];
      }
      position := 0;
      var crcResult := CrcCalc();
      var shadow := if verified != 0 then crcResult else 0;
      var metadata := Metadata(crcResult, shadow, firmwareSize, uuid, version % 0x1_0000, version / 0x1_0000);
      RecordOf(file, verified, version, uuid, crcResult, firmwareSize);
      var blank := FillBlank();
      output := EncodeMetadata(metadata) + blank[..];
      status := 0;
    }
  }

  /** The buffer of 0xFF written after the record. */
  method FillBlank() returns (blank: array<uint8>)
    ensures fresh(blank) && blank[..] == Blank()
  {
    blank := new uint8[BLANK_LENGTH];
    var b := 0;
    while b < BLANK_LENGTH
      invariant b <= BLANK_LENGTH && forall i :: 0 <= i < b ==> blank[i] == ERASED
    {
      blank[b] := ERASED;
      b := b + 1;
    }
  }

  // ---------------------------------------------------------------------------
  // What the file holds
  // ---------------------------------------------------------------------------

  /**
   * The file fills the OTA_METADATA_SPACE gap exactly; its first 16 bytes
   * read back as the record, whose size is the checksummed length, and the
   * rest is 0xFF. The version argument spans the version field and the
   * padding after it.
   */
  lemma MetadataFileLayout(file: Bytes, verified: int, version: uint32, uuid: uint32)
    requires |file| < SIZE_RANGE
    ensures var out := MetadataFile(file, verified, version, uuid);
      var md := DecodeMetadata(out[..OTA_METADATA_LENGTH]);
      && |out| == OTA_METADATA_SPACE
      && md == Record(file, verified, version, uuid)
      && md.size == WholeWords(|file|)
      && md.crc == ImageCrc(file[..md.size])
      && (verified != 0 ==> md.crcShadow == md.crc)
      && (verified == 0 ==> md.crcShadow == 0)
      && md.uuid == uuid && md.version + 0x1_0000 * md.padding == version
      && Erased(out[OTA_METADATA_LENGTH..])
  {
    var md := Record(file, verified, version, uuid);
    var out := MetadataFile(file, verified, version, uuid);
    assert out[..OTA_METADATA_LENGTH] == EncodeMetadata(md);
    DecodeEncode(md);
    RecordSize(file, verified, version, uuid);
    VersionHalves(version);
    assert out[OTA_METADATA_LENGTH..] == Blank();
  }

  /** sscanf stores the version's low half in the version field and its high half in the padding. */
  lemma VersionHalves(version: uint32)
    ensures version % 0x1_0000 + 0x1_0000 * (version / 0x1_0000) == version
  {
  }

  /**
   * A generated record is never the erased one (its size is a multiple of 4),
   * so the slot manager accepts it exactly when the image was declared
   * verified or its CRC happens to be 0.
   */
  lemma RecordValidity(file: Bytes, verified: int, version: uint32, uuid: uint32)
    ensures var md := Record(file, verified, version, uuid);
      IsValid(md) <==> verified != 0 || md.crc == 0
  {
    WrappedSizeAligned(|file|);
  }

  /** The CRC of the empty image is 0: a zero register stays zero. */
  lemma EmptyImageCrc()
    ensures ImageCrc([]) == 0
  {
    FlushIsZeros(ZERO);
    ZerosOfZero(16);
    ZeroValue();
  }

  /**
   * As written, an image declared not verified still passes as verified when
   * its CRC is 0, since crc_shadow is then written as 0 as well; the empty
   * image is one.
   */
  lemma UnverifiedEmptyImageIsValid(version: uint32, uuid: uint32)
    ensures IsValid(Record([], 0, version, uuid))
  {
    EmptyImageCrc();
    RecordValidity([], 0, version, uuid);
  }

  /** An unverified record with a crc_shadow that can never equal crc: its complement. */
  function RecordFixed(file: Bytes, verified: int, version: uint32, uuid: uint32): Metadata
  {
    var md := Record(file, verified, version, uuid);
    if verified != 0 then md else md.(crcShadow := 0xFFFF - md.crc)
  }

  /** With the complement as the unverified marker, validity is exactly the verified flag. */
  lemma RecordFixedValidity(file: Bytes, verified: int, version: uint32, uuid: uint32)
    ensures IsValid(RecordFixed(file, verified, version, uuid)) <==> verified != 0
  {
    var md := Record(file, verified, version, uuid);
    if verified != 0 {
      RecordValidity(file, verified, version, uuid);
    } else if md.crc < 0x8000 {
      assert RecordFixed(file, verified, version, uuid).crcShadow >= 0x8000;
    } else {
      assert RecordFixed(file, verified, version, uuid).crcShadow < 0x8000;
    }
  }

  /**
   * Bytes past the last whole word change nothing in the file: neither the
   * CRC nor the size covers them.
   */
  lemma TrailingBytesIgnored(file: Bytes, tail: Bytes, verified: int, version: uint32, uuid: uint32)
    requires |file| % FLASH_WORD_SIZE == 0 && |tail| < FLASH_WORD_SIZE
    ensures MetadataFile(file + tail, verified, version, uuid) == MetadataFile(file, verified, version, uuid)
  {
    var n := |file|;
    assert WholeWords(|file + tail|) == n;
    assert (file + tail)[..n] == file[..n];
  }

  // ---------------------------------------------------------------------------
  // The tool and the slot manager agree
  // ---------------------------------------------------------------------------

  /**
   * A slot holding a generated record in its first page and the image right
   * after the metadata gap passes the slot manager's CRC check: the device
   * reads the same whole words the tool checksummed.
   */
  lemma FlashedImageMatches(m: Memory, slot: uint8, file: Bytes, verified: int, version: uint32, uuid: uint32)
    requires WellFormed(m.pages) && ValidSlot(slot) && |file| <= SLOT_CAPACITY
    requires SlotMetadata(m, slot) == Record(file, verified, version, uuid)
    requires Read(m, SlotImage(slot), |file|) == file
    ensures SlotCrc(m, slot, SlotMetadata(m, slot)) == Some(SlotMetadata(m, slot).crc)
  {
    var md := SlotMetadata(m, slot);
    var n := WholeWords(|file|);
    RecordSize(file, verified, version, uuid);
    var image := SlotImage(slot);
    SlotCrcOfFittingImage(m, slot, md);
    WholeWordsRoundUp(|file|);
    assert SlotCrc(m, slot, md) == Some(ImageCrc(Read(m, image, n)));
    ReadSplit(m, image, n, |file| - n);
    assert Read(m, image, n) == file[..n];
    assert md.crc == ImageCrc(file[..n]);
  }

  /**
   * Hence `verify_int_ota_slot`, as documented, accepts such a slot unless
   * its first page fails to program, and the slot is then valid.
   */
  lemma FlashedImageIsMarked(m: Memory, bad: set<nat>, slot: uint8, file: Bytes, verified: int, version: uint32, uuid: uint32)
    requires WellFormed(m.pages) && ValidSlot(slot) && |file| <= SLOT_CAPACITY
    requires SlotMetadata(m, slot) == Record(file, verified, version, uuid)
    requires Read(m, SlotImage(slot), |file|) == file
    ensures MarkOutcome(m, bad, slot).0 == 0 <==> GetSlotOtaPage(slot) !in bad
    ensures MarkOutcome(m, bad, slot).0 == 0 ==> IsValid(SlotMetadata(Memory(MarkOutcome(m, bad, slot).1, m.outside), slot))
  {
    FlashedImageMatches(m, slot, file, verified, version, uuid);
    RecordSize(file, verified, version, uuid);
    MarkOutcomeValidates(m, bad, slot);
  }
}
