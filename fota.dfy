/**
 * The internal-flash slot manager of the STM32F103RE: two OTA slots of
 * OTA_SLOT_PAGES pages, each starting with an OTA_METADATA_SPACE gap whose
 * first 16 bytes hold the image's metadata record, followed by the image.
 */
module Fota {
  import opened UInt
  import opened Crc
  import opened Flash

  const OTA_METADATA_SPACE: nat := 0x100
  /** sizeof(OTA_metadata_t): 14 bytes of fields and 2 bytes of tail padding. */
  const OTA_METADATA_LENGTH: nat := 16
  const MAX_OTA_SLOTS: nat := 2
  const OTA_SLOT_PAGES: nat := 120
  const OTA_SLOT_1: nat := 0x0800_4000
  const OTA_SLOT_1_END: nat := 0x0803_FFFF
  const OTA_SLOT_1_PAGE: nat := 8
  const OTA_SLOT_2: nat := 0x0804_0000
  const OTA_SLOT_2_END: nat := 0x0807_BFFF
  const OTA_SLOT_2_PAGE: nat := 128
  const OTA_RESET_VECTOR: nat := 4

  // ---------------------------------------------------------------------------
  // The metadata record
  // ---------------------------------------------------------------------------

  /** OTA_metadata_t as it lies in memory, tail padding included. */
  datatype Metadata = Metadata(crc: uint16, crcShadow: uint16, size: uint32, uuid: uint32,
                               version: uint16, padding: uint16)

  function EncodeMetadata(md: Metadata): (r: Bytes)
    ensures |r| == OTA_METADATA_LENGTH
  {
    Le16(md.crc) + Le16(md.crcShadow) + Le32(md.size) + Le32(md.uuid) + Le16(md.version) + Le16(md.padding)
  }

  function DecodeMetadata(b: Bytes): Metadata
    requires |b| == OTA_METADATA_LENGTH
  {
    Metadata(Le16Value(b[0], b[1]), Le16Value(b[2], b[3]), Le32Value(b[4..8]), Le32Value(b[8..12]),
             Le16Value(b[12], b[13]), Le16Value(b[14], b[15]))
  }

  /** Reading back a written record gives the record. */
  lemma DecodeEncode(md: Metadata)
    ensures DecodeMetadata(EncodeMetadata(md)) == md
  {
    var b := EncodeMetadata(md);
    Le16RoundTrip(md.crc);
    Le16RoundTrip(md.crcShadow);
    Le16RoundTrip(md.version);
    Le16RoundTrip(md.padding);
    assert b[4..8] == Le32(md.size);
    assert b[8..12] == Le32(md.uuid);
    Le32RoundTrip(md.size);
    Le32RoundTrip(md.uuid);
  }

  /** Every 16 bytes are the image of exactly one record. */
  lemma EncodeDecode(b: Bytes)
    requires |b| == OTA_METADATA_LENGTH
    ensures EncodeMetadata(DecodeMetadata(b)) == b
  {
    Le16OfValue(b[0], b[1]);
    Le16OfValue(b[2], b[3]);
    Le16OfValue(b[12], b[13]);
    Le16OfValue(b[14], b[15]);
    Le32OfValue(b[4..8]);
    Le32OfValue(b[8..12]);
    assert b == b[0..2] + b[2..4] + b[4..8] + b[8..12] + b[12..14] + b[14..16];
  }

  /** The record of an erased slot: every byte 0xFF. */
  const ERASED_METADATA: Metadata := Metadata(0xFFFF, 0xFFFF, 0xFFFF_FFFF, 0xFFFF_FFFF, 0xFFFF, 0xFFFF)

  predicate Erased(b: Bytes)
  {
    forall i :: 0 <= i < |b| ==> b[i] == ERASED
  }

  /**
   * What `validate_ota_metadata` accepts: a populated (not erased) slot whose
   * two CRCs agree. ErasedRecord shows the erased records are the all-0xFF one.
   */
  predicate IsValid(md: Metadata)
  {
    md != ERASED_METADATA && md.crc == md.crcShadow
  }

  /**
   * The all-0xFF record is the only erased one; its two CRCs agree, yet it is
   * not valid.
   */
  lemma ErasedRecord(md: Metadata)
    ensures Erased(EncodeMetadata(md)) <==> md == ERASED_METADATA
    ensures ERASED_METADATA.crc == ERASED_METADATA.crcShadow && !IsValid(ERASED_METADATA)
  {
    var ones := seq(OTA_METADATA_LENGTH, i => ERASED);
    assert EncodeMetadata(ERASED_METADATA) == ones;
    if Erased(EncodeMetadata(md)) {
      assert EncodeMetadata(md) == ones;
      DecodeEncode(md);
      DecodeEncode(ERASED_METADATA);
    }
  }

  /** `validate_ota_metadata`: scan the record's bytes for one that is not 0xFF, then compare the CRCs. */
  method ValidateOtaMetadata(md: Metadata) returns (r: int)
    ensures r == (if Erased(EncodeMetadata(md)) then 0 else if md.crc == md.crcShadow then 1 else 0)
    ensures r == 1 <==> IsValid(md)
  {
    var bytes := EncodeMetadata(md);
    var erased := true;
    var b := 0;
    while b < OTA_METADATA_LENGTH
      invariant b <= OTA_METADATA_LENGTH && erased
      invariant forall i :: 0 <= i < b ==> bytes[i] == ERASED
    {
      if bytes[b] != ERASED {
        erased := false;
        break;
      }
      b := b + 1;
    }
    ErasedRecord(md);
    if erased {
      return 0;
    }
    if md.crc == md.crcShadow {
      return 1;
    }
    return 0;
  }

  // ---------------------------------------------------------------------------
  // Where the slots are
  // ---------------------------------------------------------------------------

  function GetSlotOtaAddress(slot: uint8): uint32
  {
    if slot == 1 then OTA_SLOT_1 else if slot == 2 then OTA_SLOT_2 else 0
  }

  function GetSlotOtaPage(slot: uint8): uint32
  {
    if slot == 1 then OTA_SLOT_1_PAGE else if slot == 2 then OTA_SLOT_2_PAGE else 0
  }

  predicate ValidSlot(slot: int)
  {
    1 <= slot <= MAX_OTA_SLOTS
  }

  /**
   * Each slot's first page is the page holding its address, its
   * OTA_SLOT_PAGES pages end at its END address and lie on the device, the
   * two slots are disjoint, and the other slot numbers map to 0.
   */
  lemma SlotLayout(slot: uint8)
    ensures ValidSlot(slot) ==>
      && FLASH_BASE + GetSlotOtaPage(slot) * FLASHPAGE_SIZE == GetSlotOtaAddress(slot)
      && GetSlotOtaAddress(slot) + OTA_SLOT_PAGES * FLASHPAGE_SIZE - 1 == (if slot == 1 then OTA_SLOT_1_END else OTA_SLOT_2_END)
      && GetSlotOtaPage(slot) + OTA_SLOT_PAGES <= FLASHPAGE_NUMOF
    ensures !ValidSlot(slot) <==> GetSlotOtaAddress(slot) == 0 && GetSlotOtaPage(slot) == 0
    ensures GetSlotOtaPage(1) + OTA_SLOT_PAGES <= GetSlotOtaPage(2)
  {
  }

  // ---------------------------------------------------------------------------
  // Reading metadata
  // ---------------------------------------------------------------------------

  /** The build fota.c is compiled into: the bootloader, or an image linked for one slot. */
  datatype Build = Bootloader | OtaImage(slot: nat)

  /** CPU_FLASH_BASE of the STM32F1: the image's vector table in an OTA build. */
  function CpuFlashBase(build: Build): nat
  {
    match build
    case Bootloader => FLASH_BASE
    case OtaImage(s) => (if s == 1 then OTA_SLOT_1 else OTA_SLOT_2) + OTA_METADATA_SPACE
  }

  /** The address `get_int_metadata` reads, as written: page * FLASHPAGE_SIZE + CPU_FLASH_BASE. */
  function MetadataAddressAsWritten(build: Build, page: uint8): uint32
  {
    (page * FLASHPAGE_SIZE + CpuFlashBase(build)) % ADDRESS_SPACE
  }

  /** The address of a page in flash, which `get_int_metadata` evidently means to read. */
  function MetadataAddress(page: uint8): nat
  {
    FLASH_BASE + page * FLASHPAGE_SIZE
  }

  /**
   * In the bootloader the two agree, so each slot's metadata is read from the
   * slot's start. In an OTA build CPU_FLASH_BASE is the running image's vector
   * table, and the read lands that far past flash start plus the page offset:
   * never the slot's metadata.
   */
  lemma MetadataAddressInBuilds(build: Build, slot: uint8)
    requires ValidSlot(slot) && (build.OtaImage? ==> ValidSlot(build.slot))
    ensures build == Bootloader ==>
      MetadataAddressAsWritten(build, GetSlotOtaPage(slot) as uint8) == GetSlotOtaAddress(slot)
    ensures build.OtaImage? ==>
      MetadataAddressAsWritten(build, GetSlotOtaPage(slot) as uint8)
        == GetSlotOtaAddress(slot) + GetSlotOtaAddress(build.slot as uint8) + OTA_METADATA_SPACE - FLASH_BASE
    ensures build.OtaImage? ==>
      MetadataAddressAsWritten(build, GetSlotOtaPage(slot) as uint8) != GetSlotOtaAddress(slot)
    ensures MetadataAddress(GetSlotOtaPage(slot) as uint8) == GetSlotOtaAddress(slot)
  {
  }

  /** `get_int_metadata` as written: the 16 bytes at the as-written address. */
  function GetIntMetadataAsWritten(build: Build, m: Memory, page: uint8): Metadata
    requires WellFormed(m.pages)
  {
    DecodeMetadata(Read(m, MetadataAddressAsWritten(build, page), OTA_METADATA_LENGTH))
  }

  /** `get_int_metadata` reading from the page itself. */
  function GetIntMetadata(m: Memory, page: uint8): (md: Metadata)
    requires WellFormed(m.pages)
    ensures page < FLASHPAGE_NUMOF ==> EncodeMetadata(md) == m.pages[page][..OTA_METADATA_LENGTH]
  {
    var b := Read(m, MetadataAddress(page), OTA_METADATA_LENGTH);
    ReadInPage(m, page, 0, OTA_METADATA_LENGTH);
    EncodeDecode(b);
    DecodeMetadata(b)
  }

  /**
   * `get_int_ota_slot_metadata`: None (the source's -1, metadata untouched)
   * for slot 0 or a slot past MAX_OTA_SLOTS, otherwise the record stored in the
   * first bytes of the slot's first page.
   */
  function GetIntOtaSlotMetadata(m: Memory, slot: uint8): (r: Option<Metadata>)
    requires WellFormed(m.pages)
    ensures r.None? <==> !ValidSlot(slot)
    ensures r.Some? ==> EncodeMetadata(r.value) == m.pages[GetSlotOtaPage(slot)][..OTA_METADATA_LENGTH]
  {
    if slot > MAX_OTA_SLOTS || slot == 0 then None
    else if slot == 1 then Some(GetIntMetadata(m, OTA_SLOT_1_PAGE))
    else Some(GetIntMetadata(m, OTA_SLOT_2_PAGE))
  }

  /** The records of slots 1..MAX_OTA_SLOTS; entry k belongs to slot k + 1. */
  function Snapshot(m: Memory): (s: seq<Metadata>)
    requires WellFormed(m.pages)
    ensures |s| == MAX_OTA_SLOTS
    ensures forall k :: 0 <= k < |s| ==> Some(s[k]) == GetIntOtaSlotMetadata(m, k + 1)
  {
    [GetIntOtaSlotMetadata(m, 1).value, GetIntOtaSlotMetadata(m, 2).value]
  }

  /** The record of a slot that exists. */
  function SlotMetadata(m: Memory, slot: uint8): Metadata
    requires WellFormed(m.pages) && ValidSlot(slot)
  {
    GetIntOtaSlotMetadata(m, slot).value
  }

  // ---------------------------------------------------------------------------
  // Slot selection over a snapshot
  // ---------------------------------------------------------------------------

  predicate Holds(slots: seq<Metadata>, k: int, version: uint16)
    requires 0 <= k < |slots|
  {
    IsValid(slots[k]) && slots[k].version == version
  }

  /** The first valid slot from index k on whose version is `version`, else -1. */
  function MatchingFrom(slots: seq<Metadata>, version: uint16, k: nat): (r: int)
    requires k <= |slots|
    ensures r == -1 <==> forall j :: k <= j < |slots| ==> !Holds(slots, j, version)
    ensures r != -1 ==> k < r <= |slots| && Holds(slots, r - 1, version)
                        && forall j :: k <= j < r - 1 ==> !Holds(slots, j, version)
    decreases |slots| - k
  {
    if k == |slots| then -1
    else if IsValid(slots[k]) && slots[k].version == version then assert Holds(slots, k, version); k + 1
    else MatchingFrom(slots, version, k + 1)
  }

  /** (slot, version) held by `find_newest_int_ota_image` after the first n slots. */
  function NewestAfter(slots: seq<Metadata>, n: nat): (r: (int, uint16))
    requires n <= |slots|
    ensures r.0 == 0 <==> forall j :: 0 <= j < n ==> !(IsValid(slots[j]) && slots[j].version > 0)
    ensures r.0 == 0 ==> r.1 == 0
    ensures r.0 != 0 ==> 1 <= r.0 <= n && IsValid(slots[r.0 - 1]) && slots[r.0 - 1].version == r.1 > 0
    ensures forall j :: 0 <= j < n && IsValid(slots[j]) ==> slots[j].version <= r.1
    ensures r.0 != 0 ==> forall j :: 0 <= j < r.0 - 1 && IsValid(slots[j]) ==> slots[j].version < r.1
  {
    if n == 0 then (0, 0)
    else
      var prev := NewestAfter(slots, n - 1);
      var md := slots[n - 1];
      if IsValid(md) && md.version > prev.1 then (n, md.version) else prev
  }

  /** (slot, version) held by `find_oldest_int_ota_image` after the first n slots. */
  function OldestAfter(slots: seq<Metadata>, n: nat): (r: (int, uint16))
    requires n <= |slots|
    ensures 1 <= r.0 <= if n == 0 then 1 else n
    ensures (forall j :: 0 <= j < n ==> !IsValid(slots[j])) ==> r == (1, 0)
    ensures (exists j :: 0 <= j < n && IsValid(slots[j])) ==>
      IsValid(slots[r.0 - 1]) && slots[r.0 - 1].version == r.1
  {
    if n == 0 then (1, 0)
    else
      var prev := OldestAfter(slots, n - 1);
      var md := slots[n - 1];
      if !IsValid(md) then prev
      else if prev.1 != 0 then (if md.version < prev.1 then (n, md.version) else prev)
      else (n, md.version)
  }

  /**
   * When every valid slot holds a nonzero version, the oldest slot is the
   * first valid slot holding the least version.
   */
  lemma {:induction false} OldestIsFirstLeast(slots: seq<Metadata>, n: nat)
    requires n <= |slots|
    requires forall j :: 0 <= j < n && IsValid(slots[j]) ==> slots[j].version > 0
    ensures forall j :: 0 <= j < n && IsValid(slots[j]) ==> OldestAfter(slots, n).1 <= slots[j].version
    ensures forall j :: 0 <= j < OldestAfter(slots, n).0 - 1 && IsValid(slots[j]) ==>
      OldestAfter(slots, n).1 < slots[j].version
  {
    if n > 0 {
      OldestIsFirstLeast(slots, n - 1);
    }
  }

  /**
   * A version-0 slot never survives a later valid slot: while the version
   * held is 0 the next valid slot is taken whatever its version, so a v0
   * result is always the last valid slot.
   */
  lemma {:induction false} OldestVersionZeroIsLast(slots: seq<Metadata>, n: nat)
    requires n <= |slots|
    requires exists j :: 0 <= j < n && IsValid(slots[j])
    requires OldestAfter(slots, n).1 == 0
    ensures forall j :: OldestAfter(slots, n).0 <= j < n ==> !IsValid(slots[j])
  {
    var r := OldestAfter(slots, n);
    if n > 0 && !IsValid(slots[n - 1]) {
      OldestVersionZeroIsLast(slots, n - 1);
    }
  }

  /** Slot 1 holds v0 and slot 2 holds v5: the v5 slot is reported as the oldest. */
  lemma OldestSkipsVersionZero()
    ensures OldestAfter([Metadata(1, 1, 0, 0, 0, 0), Metadata(1, 1, 0, 0, 5, 0)], 2) == (2, 5)
  {
    var a, b := Metadata(1, 1, 0, 0, 0, 0), Metadata(1, 1, 0, 0, 5, 0);
    ErasedRecord(a);
    ErasedRecord(b);
  }

  /** The first invalid slot (1-based) from index k on, else `find_oldest_int_ota_image`. */
  function EmptyFrom(slots: seq<Metadata>, k: nat): (r: int)
    requires 0 < |slots| && k <= |slots|
    ensures 1 <= r <= |slots|
    ensures (exists j :: k <= j < |slots| && !IsValid(slots[j])) ==>
      k < r && !IsValid(slots[r - 1]) && forall j :: k <= j < r - 1 ==> IsValid(slots[j])
    ensures (forall j :: k <= j < |slots| ==> IsValid(slots[j])) ==> r == OldestAfter(slots, |slots|).0
    decreases |slots| - k
  {
    if k == |slots| then OldestAfter(slots, |slots|).0
    else if !IsValid(slots[k]) then k + 1
    else EmptyFrom(slots, k + 1)
  }

  /** `find_matching_int_ota_slot`. */
  method FindMatchingIntOtaSlot(m: Memory, version: uint16) returns (matching: int)
    requires WellFormed(m.pages)
    ensures matching == MatchingFrom(Snapshot(m), version, 0)
  {
    matching := -1;
    var slot := 1;
    while slot <= MAX_OTA_SLOTS
      invariant 1 <= slot <= MAX_OTA_SLOTS + 1
      invariant MatchingFrom(Snapshot(m), version, 0) == MatchingFrom(Snapshot(m), version, slot - 1)
    {
      var md := GetIntOtaSlotMetadata(m, slot).value;
      var valid := ValidateOtaMetadata(md);
      if valid == 0 {
        slot := slot + 1;
        continue;
      }
      if md.version == version {
        matching := slot;
        break;
      }
      slot := slot + 1;
    }
  }

  /** `find_empty_int_ota_slot`: the first invalid slot, else the oldest one. */
  method FindEmptyIntOtaSlot(m: Memory) returns (slot: int)
    requires WellFormed(m.pages)
    ensures slot == EmptyFrom(Snapshot(m), 0)
  {
    slot := 1;
    while slot <= MAX_OTA_SLOTS
      invariant 1 <= slot <= MAX_OTA_SLOTS + 1
      invariant EmptyFrom(Snapshot(m), 0) == EmptyFrom(Snapshot(m), slot - 1)
    {
      var md := GetIntOtaSlotMetadata(m, slot).value;
      var valid := ValidateOtaMetadata(md);
      if valid == 0 {
        return slot;
      }
      slot := slot + 1;
    }
    slot := FindOldestIntOtaImage(m);
  }

  /** `find_oldest_int_ota_image`. */
  method FindOldestIntOtaImage(m: Memory) returns (oldest: int)
    requires WellFormed(m.pages)
    ensures oldest == OldestAfter(Snapshot(m), MAX_OTA_SLOTS).0
  {
    oldest := 1;
    var oldestVersion: uint16 := 0;
    var slot := 1;
    while slot <= MAX_OTA_SLOTS
      invariant 1 <= slot <= MAX_OTA_SLOTS + 1
      invariant (oldest, oldestVersion) == OldestAfter(Snapshot(m), slot - 1)
    {
      var md := GetIntOtaSlotMetadata(m, slot).value;
      var valid := ValidateOtaMetadata(md);
      if valid == 0 {
        slot := slot + 1;
        continue;
      }
      if oldestVersion != 0 {
        if md.version < oldestVersion {
          oldest, oldestVersion := slot, md.version;
        }
      } else {
        oldest, oldestVersion := slot, md.version;
      }
      slot := slot + 1;
    }
  }

  /** `find_newest_int_ota_image`. */
  method FindNewestIntOtaImage(m: Memory) returns (newest: int)
    requires WellFormed(m.pages)
    ensures newest == NewestAfter(Snapshot(m), MAX_OTA_SLOTS).0
  {
    newest := 0;
    var newestVersion: uint16 := 0;
    var slot := 1;
    while slot <= MAX_OTA_SLOTS
      invariant 1 <= slot <= MAX_OTA_SLOTS + 1
      invariant (newest, newestVersion) == NewestAfter(Snapshot(m), slot - 1)
    {
      var md := GetIntOtaSlotMetadata(m, slot).value;
      var valid := ValidateOtaMetadata(md);
      if valid == 0 {
        slot := slot + 1;
        continue;
      }
      if md.version > newestVersion {
        newest, newestVersion := slot, md.version;
      }
      slot := slot + 1;
    }
  }

  // ---------------------------------------------------------------------------
  // Checksumming an image in flash
  // ---------------------------------------------------------------------------

  /** The bytes `verify_ota_crc` reads: whole words while the address is below the end. */
  function WordBytes(begin: nat, end: nat): nat
  {
    if begin < end then 4 * ((end - begin + 3) / 4) else 0
  }

  /** Where the word loop stops without wrapping: after WordBytes(begin, end) bytes. */
  lemma LoopEnd(begin: nat, end: nat, words: nat)
    requires begin % 4 == 0 && begin + 4 * words < ADDRESS_SPACE && begin + 4 * words >= end
    requires words > 0 ==> begin + 4 * words - 4 < end
    ensures !Diverges(begin, end) && 4 * words == WordBytes(begin, end)
  {
    assert begin + 4 * words <= ADDRESS_SPACE - 4;
    if begin < end {
      RoundUp(end - begin, words);
    }
  }

  lemma RoundUp(n: nat, q: nat)
    requires 4 * q >= n && (q == 0 || 4 * (q - 1) < n)
    ensures q == (n + 3) / 4
  {
  }

  /**
   * The outcome of `verify_ota_crc(begin, end)` for a word-aligned `begin`:
   * None when the loop never ends (see VerifyOtaCrcNeverEnds), otherwise the
   * image CRC of the words read.
   */
  function OtaCrc(m: Memory, begin: uint32, end: uint32): Option<uint16>
    requires WellFormed(m.pages) && begin % 4 == 0
  {
    if Diverges(begin, end) then None
    else Some(ImageCrc(Read(m, begin, WordBytes(begin, end))))
  }

  /** The address the loop holds after k words, in 32-bit arithmetic. */
  function WordAddress(begin: nat, k: nat): nat
  {
    (begin + 4 * k) % ADDRESS_SPACE
  }

  /**
   * When `end` lies in the last word of the address space, the address wraps
   * to 0 before reaching it and stays below it for ever: the loop never ends.
   */
  lemma VerifyOtaCrcNeverEnds(begin: uint32, end: uint32)
    requires begin % 4 == 0 && end > ADDRESS_SPACE - 4
    ensures forall k: nat :: WordAddress(begin, k) < end
  {
    forall k: nat
      ensures WordAddress(begin, k) < end
    {
      var x := begin + 4 * k;
      assert x == (x / ADDRESS_SPACE) * ADDRESS_SPACE + x % ADDRESS_SPACE;
      assert (x % ADDRESS_SPACE) % 4 == 0;
    }
  }

  /** The `verify_ota_crc` loop never ends: `end` lies in the last word of the address space. */
  predicate Diverges(begin: nat, end: nat)
  {
    begin < end && end > ADDRESS_SPACE - 4
  }

  /**
   * The word loop of `verify_ota_crc`: the register after the words below
   * `end`. Returns None at the point where the next address would wrap.
   */
  method FeedWords(m: Memory, begin: uint32, end: uint32, init: Bits) returns (r: Option<Bits>)
    requires WellFormed(m.pages) && begin % 4 == 0 && |init| == 16
    ensures r == if Diverges(begin, end) then None else Some(Feed(init, Read(m, begin, WordBytes(begin, end))))
  {
    var crc := init;
    var address: nat := begin;
    ghost var words: nat := 0;
    assert Read(m, begin, 0) == [];
    while address < end
      invariant address == begin + 4 * words && address < ADDRESS_SPACE
      invariant words > 0 ==> address - 4 < end
      invariant crc == Feed(init, Read(m, begin, 4 * words))
      decreases end - address
    {
      if address + 4 >= ADDRESS_SPACE {
        // `address += 4` wraps to 0, below `end`, as does every later step
        assert address == ADDRESS_SPACE - 4 && Diverges(begin, end);
        return None;
      }
      crc := FeedWord(m, begin, address - begin, init, crc);
      address, words := address + 4, words + 1;
    }
    LoopEnd(begin, end, words);
    r := Some(crc);
  }

  /** One turn of the word loop: the four bytes at begin + n. */
  method FeedWord(m: Memory, begin: nat, n: nat, init: Bits, crc: Bits) returns (next: Bits)
    requires WellFormed(m.pages) && |init| == 16 && crc == Feed(init, Read(m, begin, n))
    ensures next == Feed(init, Read(m, begin, n + 4))
  {
    next := FeedBytes(crc, Read(m, begin + n, 4));
    FeedNextWord(m, begin, n, init);
  }

  /** Feeding the bytes up to n + 4 is feeding those up to n, then the next word. */
  lemma FeedNextWord(m: Memory, begin: nat, n: nat, init: Bits)
    requires WellFormed(m.pages) && |init| == 16
    ensures Feed(init, Read(m, begin, n + 4)) == Feed(Feed(init, Read(m, begin, n)), Read(m, begin + n, 4))
  {
    ReadSplit(m, begin, n, 4);
    FeedAppend(init, Read(m, begin, n), Read(m, begin + n, 4));
  }

  /** `verify_ota_crc`: the word loop, then two zero bytes. */
  method VerifyOtaCrc(m: Memory, begin: uint32, end: uint32) returns (r: Option<uint16>)
    requires WellFormed(m.pages) && begin % 4 == 0
    ensures r == OtaCrc(m, begin, end)
  {
    var words := FeedWords(m, begin, end, ZERO);
    if words.None? {
      return None;
    }
    var crc := Crc16(words.value, 0);
    crc := Crc16(crc, 0);
    Pow2Of16();
    r := Some(ValueOf(crc));
  }

  /** Where a slot's image starts: right after the metadata gap. */
  function SlotImage(slot: uint8): uint32
  {
    GetSlotOtaAddress(slot) + OTA_METADATA_SPACE
  }

  /** A slot's image is word aligned (in fact 256-byte aligned, as the vector table must be). */
  lemma SlotImageAligned(slot: uint8)
    requires ValidSlot(slot)
    ensures SlotImage(slot) % 4 == 0 && SlotImage(slot) % 0x100 == 0
  {
  }

  /** The image CRC of a slot whose record is `md`, over [image, image + size) in 32-bit arithmetic. */
  function SlotCrc(m: Memory, slot: uint8, md: Metadata): Option<uint16>
    requires WellFormed(m.pages)
  {
    OtaCrc(m, SlotImage(slot), (SlotImage(slot) + md.size) % ADDRESS_SPACE)
  }

  /** `verify_ota_crc` over a slot's image, as the slot functions call it. */
  method ComputeSlotCrc(m: Memory, slot: uint8, md: Metadata) returns (r: Option<uint16>)
    requires WellFormed(m.pages) && ValidSlot(slot)
    ensures r == SlotCrc(m, slot, md)
  {
    SlotImageAligned(slot);
    r := VerifyOtaCrc(m, SlotImage(slot), (SlotImage(slot) + md.size) % ADDRESS_SPACE);
    SlotCrcIsOtaCrc(m, slot, md);
  }

  lemma SlotCrcIsOtaCrc(m: Memory, slot: uint8, md: Metadata)
    requires WellFormed(m.pages)
    ensures SlotCrc(m, slot, md) == OtaCrc(m, SlotImage(slot), (SlotImage(slot) + md.size) % ADDRESS_SPACE)
  {
  }

  /** The largest image a slot holds behind its metadata gap. */
  const SLOT_CAPACITY: nat := OTA_SLOT_PAGES * FLASHPAGE_SIZE - OTA_METADATA_SPACE

  /** An image that fits its slot is checksummed over its size rounded up to whole words. */
  lemma SlotCrcOfFittingImage(m: Memory, slot: uint8, md: Metadata)
    requires WellFormed(m.pages) && ValidSlot(slot) && md.size <= SLOT_CAPACITY
    ensures SlotCrc(m, slot, md) == Some(ImageCrc(Read(m, SlotImage(slot), 4 * ((md.size + 3) / 4))))
  {
    SlotEndNoWrap(slot, md);
    SlotWordBytes(slot, md);
  }

  lemma SlotEndNoWrap(slot: uint8, md: Metadata)
    requires ValidSlot(slot) && md.size <= SLOT_CAPACITY
    ensures SlotImage(slot) + md.size < ADDRESS_SPACE - 4
    ensures (SlotImage(slot) + md.size) % ADDRESS_SPACE == SlotImage(slot) + md.size
  {
  }

  lemma SlotWordBytes(slot: uint8, md: Metadata)
    requires ValidSlot(slot) && md.size <= SLOT_CAPACITY
    ensures WordBytes(SlotImage(slot), SlotImage(slot) + md.size) == 4 * ((md.size + 3) / 4)
  {
  }

  /** What `verify_int_ota_slot` returns as written; None where it never returns. */
  function VerifyIntOtaSlotResult(m: Memory, slot: uint8): Option<int>
    requires WellFormed(m.pages)
  {
    if !ValidSlot(slot) then Some(-1)
    else if SlotCrc(m, slot, SlotMetadata(m, slot)).None? then None
    else Some(0)
  }

  /**
   * `verify_int_ota_slot` as written: the CRC is computed and compared, the
   * new crc_shadow is kept in a local copy only, and 0 is returned either way.
   */
  method VerifyIntOtaSlot(m: Memory, slot: uint8) returns (r: Option<int>)
    requires WellFormed(m.pages)
    ensures r == VerifyIntOtaSlotResult(m, slot)
  {
    if slot > MAX_OTA_SLOTS || slot == 0 {
      return Some(-1);
    }
    var md := GetIntOtaSlotMetadata(m, slot).value;
    var crc := ComputeSlotCrc(m, slot, md);
    if crc.None? {
      return None;
    }
    md := md.(crcShadow := crc.value);
    r := Some(0);
  }

  /**
   * A slot whose image does not match its record's CRC is reported as 0, the
   * documented success, and a slot whose image does match stays as invalid
   * as it was: nothing reaches the flash.
   */
  lemma VerifyIntOtaSlotIgnoresOutcome(m: Memory, slot: uint8)
    requires WellFormed(m.pages) && ValidSlot(slot)
    requires SlotCrc(m, slot, SlotMetadata(m, slot)).Some?
    ensures SlotCrc(m, slot, SlotMetadata(m, slot)) != Some(SlotMetadata(m, slot).crc) ==>
      VerifyIntOtaSlotResult(m, slot) == Some(0)
    ensures !IsValid(SlotMetadata(m, slot)) ==> VerifyIntOtaSlotResult(m, slot) == Some(0)
  {
  }

  /** The slot's first page with the record's crc_shadow bytes replaced. */
  function WithShadow(page: Bytes, shadow: uint16): (r: Bytes)
    requires |page| == FLASHPAGE_SIZE
    ensures |r| == FLASHPAGE_SIZE && r[OTA_METADATA_LENGTH..] == page[OTA_METADATA_LENGTH..]
  {
    page[..2] + Le16(shadow) + page[4..]
  }

  /**
   * `verify_int_ota_slot` as its documentation describes it: the result and
   * the pages afterwards. An image that fits its slot and matches its
   * record's CRC gets crc_shadow := crc programmed to the slot's first page;
   * every other case is an error and writes nothing.
   */
  function MarkOutcome(m: Memory, bad: set<nat>, slot: uint8): (r: (int, seq<Bytes>))
    requires WellFormed(m.pages)
    ensures WellFormed(r.1) && (r.0 == 0 || r.0 == -1)
  {
    if !ValidSlot(slot) then (-1, m.pages)
    else
      var md := SlotMetadata(m, slot);
      if md.size > SLOT_CAPACITY || SlotCrc(m, slot, md) != Some(md.crc) then (-1, m.pages)
      else
        var page := GetSlotOtaPage(slot);
        var w := Programmed(m.pages, bad, page, WithShadow(m.pages[page], md.crc));
        (if w.0 then 0 else -1, w.1)
  }

  /** `verify_int_ota_slot` with the verified CRC stored, as documented. */
  method VerifyAndMarkIntOtaSlot(dev: Device, slot: uint8) returns (r: int)
    requires dev.Valid()
    modifies dev`pages, dev`history
    ensures dev.Valid()
    ensures (r, dev.pages) == MarkOutcome(old(dev.Contents()), dev.bad, slot)
  {
    if slot > MAX_OTA_SLOTS || slot == 0 {
      return -1;
    }
    var m := dev.Contents();
    var md := GetIntOtaSlotMetadata(m, slot).value;
    if md.size > SLOT_CAPACITY {
      return -1;
    }
    var crc := ComputeSlotCrc(m, slot, md);
    if crc != Some(md.crc) {
      return -1;
    }
    var page := GetSlotOtaPage(slot);
    var ok := dev.WriteAndVerify(page, WithShadow(dev.pages[page], md.crc));
    r := if ok then 0 else -1;
  }

  /**
   * Marking succeeds exactly for a slot whose image fits and matches its
   * record's CRC, on a page that programs; the slot then holds its record
   * with crc_shadow == crc and is valid. Otherwise no page but the slot's
   * first one changes.
   */
  lemma MarkOutcomeValidates(m: Memory, bad: set<nat>, slot: uint8)
    requires WellFormed(m.pages)
    ensures var (r, after) := MarkOutcome(m, bad, slot);
      && (r == 0 <==> ValidSlot(slot) && SlotMetadata(m, slot).size <= SLOT_CAPACITY
                       && SlotCrc(m, slot, SlotMetadata(m, slot)) == Some(SlotMetadata(m, slot).crc)
                       && GetSlotOtaPage(slot) !in bad)
      && (r == 0 ==> var md := SlotMetadata(m, slot);
            SlotMetadata(Memory(after, m.outside), slot) == md.(crcShadow := md.crc)
            && IsValid(SlotMetadata(Memory(after, m.outside), slot)))
      && (forall p :: 0 <= p < |after| && (!ValidSlot(slot) || p != GetSlotOtaPage(slot)) ==> after[p] == m.pages[p])
  {
    var (r, after) := MarkOutcome(m, bad, slot);
    if r == 0 {
      var md := SlotMetadata(m, slot);
      ShadowWritten(m, Memory(after, m.outside), slot, md);
    }
  }

  lemma ShadowWritten(before: Memory, after: Memory, slot: uint8, md: Metadata)
    requires WellFormed(before.pages) && WellFormed(after.pages) && ValidSlot(slot)
    requires md == SlotMetadata(before, slot) && md.size <= SLOT_CAPACITY
    requires after.pages == before.pages[GetSlotOtaPage(slot) := WithShadow(before.pages[GetSlotOtaPage(slot)], md.crc)]
    ensures SlotMetadata(after, slot) == md.(crcShadow := md.crc)
    ensures IsValid(SlotMetadata(after, slot))
  {
    var page := GetSlotOtaPage(slot);
    var fixed := md.(crcShadow := md.crc);
    var old16 := before.pages[page][..OTA_METADATA_LENGTH];
    assert EncodeMetadata(md) == old16;
    assert after.pages[page][..OTA_METADATA_LENGTH] == old16[..2] + Le16(md.crc) + old16[4..];
    assert EncodeMetadata(fixed) == after.pages[page][..OTA_METADATA_LENGTH];
    DecodeEncode(fixed);
    DecodeEncode(SlotMetadata(after, slot));
  }

  // ---------------------------------------------------------------------------
  // Erasing a slot
  // ---------------------------------------------------------------------------

  function ErasedIfIn(page: Bytes, p: nat, first: nat, n: nat): (r: Bytes)
    ensures |page| == FLASHPAGE_SIZE ==> |r| == FLASHPAGE_SIZE
  {
    if first <= p < first + n then ErasedPage() else page
  }

  /** `pages` with the n pages from `first` on erased. */
  function ErasedRange(pages: seq<Bytes>, first: nat, n: nat): (r: seq<Bytes>)
    ensures |r| == |pages| && (WellFormed(pages) ==> WellFormed(r))
  {
    seq(|pages|, p requires 0 <= p < |pages| => ErasedIfIn(pages[p], p, first, n))
  }

  /** The erase operations for the n pages from `first` on, in ascending order. */
  function EraseOps(first: nat, n: nat): (r: seq<Op>)
    ensures |r| == n
  {
    seq(n, i requires 0 <= i < n => EraseOp(first + i))
  }

  /**
   * `erase_int_ota_image`: -1 and no flash operation for a slot that does not
   * exist; otherwise the slot's OTA_SLOT_PAGES pages are erased one by one in
   * ascending order and no other page is touched.
   */
  method EraseIntOtaImage(dev: Device, slot: uint8) returns (r: int)
    requires dev.Valid()
    modifies dev`pages, dev`history
    ensures dev.Valid()
    ensures !ValidSlot(slot) ==> r == -1 && dev.pages == old(dev.pages) && dev.history == old(dev.history)
    ensures ValidSlot(slot) ==>
      && r == 0
      && dev.pages == ErasedRange(old(dev.pages), GetSlotOtaPage(slot), OTA_SLOT_PAGES)
      && dev.history == old(dev.history) + EraseOps(GetSlotOtaPage(slot), OTA_SLOT_PAGES)
  {
    if slot > MAX_OTA_SLOTS || slot == 0 {
      return -1;
    }
    var slotPage: uint8 := GetSlotOtaPage(slot);
    var page: nat := slotPage;
    while page < slotPage + OTA_SLOT_PAGES
      invariant slotPage <= page <= slotPage + OTA_SLOT_PAGES && dev.Valid()
      invariant dev.pages == ErasedRange(old(dev.pages), slotPage, page - slotPage)
      invariant dev.history == old(dev.history) + EraseOps(slotPage, page - slotPage)
    {
      dev.Erase(page);
      assert EraseOps(slotPage, page + 1 - slotPage) == EraseOps(slotPage, page - slotPage) + [EraseOp(page)];
      page := page + 1;
    }
    r := 0;
  }

  /**
   * After erasing a slot its record reads as erased, so the selection
   * functions treat it as empty, and the other slot's record is untouched.
   */
  lemma ErasedSlotReadsEmpty(m: Memory, slot: uint8, other: uint8)
    requires WellFormed(m.pages) && ValidSlot(slot) && ValidSlot(other) && other != slot
    ensures var after := Memory(ErasedRange(m.pages, GetSlotOtaPage(slot), OTA_SLOT_PAGES), m.outside);
      && WellFormed(after.pages)
      && SlotMetadata(after, slot) == ERASED_METADATA && !IsValid(SlotMetadata(after, slot))
      && SlotMetadata(after, other) == SlotMetadata(m, other)
  {
    var after := Memory(ErasedRange(m.pages, GetSlotOtaPage(slot), OTA_SLOT_PAGES), m.outside);
    var md := SlotMetadata(after, slot);
    assert EncodeMetadata(md) == ErasedPage()[..OTA_METADATA_LENGTH];
    ErasedRecord(md);
    ErasedRecord(ERASED_METADATA);
    var a, b := SlotMetadata(after, other), SlotMetadata(m, other);
    assert EncodeMetadata(a) == EncodeMetadata(b);
    DecodeEncode(a);
    DecodeEncode(b);
  }

  // ---------------------------------------------------------------------------
  // Booting an image
  // ---------------------------------------------------------------------------

  /**
   * The address `jump_to_image` loads the reset handler from: past the
   * metadata gap unless the destination is 0 (reboot), then the second entry
   * of the vector table.
   */
  function JumpTarget(destination: uint32): uint32
  {
    var d := if destination != 0 then destination + OTA_METADATA_SPACE else destination;
    (d + OTA_RESET_VECTOR) % ADDRESS_SPACE
  }

  /**
   * Jumping to a slot reads the reset vector of the 256-byte aligned vector
   * table OTA_METADATA_SPACE past the slot's start; jumping to 0 reads the
   * reset vector at OTA_RESET_VECTOR.
   */
  lemma JumpIntoSlot(slot: uint8)
    requires ValidSlot(slot)
    ensures JumpTarget(GetSlotOtaAddress(slot)) == SlotImage(slot) + OTA_RESET_VECTOR
    ensures (JumpTarget(GetSlotOtaAddress(slot)) - OTA_RESET_VECTOR) % 0x100 == 0
    ensures JumpTarget(0) == OTA_RESET_VECTOR
  {
  }

  // ---------------------------------------------------------------------------
  // Marking the running image verified
  // ---------------------------------------------------------------------------

  /** The page `verify_current_firmware` programs: FLASHPAGE_SIZE bytes starting at the caller's record. */
  function PageFromRecord(md: Metadata, ram: Bytes): (r: Bytes)
    requires |ram| == FLASHPAGE_SIZE - OTA_METADATA_LENGTH
    ensures |r| == FLASHPAGE_SIZE
  {
    EncodeMetadata(md) + ram
  }

  /**
   * `verify_current_firmware` in the image linked for slot `current` (an OTA
   * build), as written: the result, the record with crc_shadow set to the
   * running image's CRC, and the pages afterwards. FLASHPAGE_SIZE bytes
   * starting at the caller's record are programmed to the slot's first page:
   * the record and then whatever lies after it in RAM (`ram`). None where the
   * CRC loop never ends.
   */
  function CurrentFirmwareOutcome(m: Memory, bad: set<nat>, current: uint8, md: Metadata, ram: Bytes)
    : (r: (Option<int>, Metadata, seq<Bytes>))
    requires WellFormed(m.pages) && ValidSlot(current) && |ram| == FLASHPAGE_SIZE - OTA_METADATA_LENGTH
    ensures WellFormed(r.2)
  {
    var crc := SlotCrc(m, current, md);
    if crc.None? then (None, md, m.pages)
    else
      var updated := md.(crcShadow := crc.value);
      var w := Programmed(m.pages, bad, GetSlotOtaPage(current), PageFromRecord(updated, ram));
      (Some(if w.0 then 0 else -1), updated, w.1)
  }

  method VerifyCurrentFirmware(dev: Device, current: uint8, md: Metadata, ram: Bytes)
      returns (r: Option<int>, updated: Metadata)
    requires dev.Valid() && ValidSlot(current) && |ram| == FLASHPAGE_SIZE - OTA_METADATA_LENGTH
    modifies dev`pages, dev`history
    ensures dev.Valid()
    ensures (r, updated, dev.pages) == CurrentFirmwareOutcome(old(dev.Contents()), dev.bad, current, md, ram)
  {
    var crc := ComputeSlotCrc(dev.Contents(), current, md);
    if crc.None? {
      return None, md;
    }
    updated := md.(crcShadow := crc.value);
    var ok := dev.WriteAndVerify(GetSlotOtaPage(current), PageFromRecord(updated, ram));
    r := if ok then Some(0) else Some(-1);
  }

  /**
   * The page written from the record replaces the first
   * FLASHPAGE_SIZE - OTA_METADATA_SPACE bytes of the running image, its
   * vector table first, with RAM contents: unless RAM happens to hold them,
   * the image is destroyed.
   */
  lemma VerifyCurrentFirmwareOverwritesImage(page: Bytes, md: Metadata, ram: Bytes)
    requires |page| == FLASHPAGE_SIZE && |ram| == FLASHPAGE_SIZE - OTA_METADATA_LENGTH
    ensures PageFromRecord(md, ram)[OTA_METADATA_SPACE..] == ram[OTA_METADATA_SPACE - OTA_METADATA_LENGTH..]
    ensures ram[OTA_METADATA_SPACE - OTA_METADATA_LENGTH..] != page[OTA_METADATA_SPACE..] ==>
      PageFromRecord(md, ram)[OTA_METADATA_SPACE..] != page[OTA_METADATA_SPACE..]
  {
  }

  /** The page with its first OTA_METADATA_LENGTH bytes replaced by the record. */
  function PageWithRecord(page: Bytes, md: Metadata): (r: Bytes)
    requires |page| == FLASHPAGE_SIZE
    ensures |r| == FLASHPAGE_SIZE && r[OTA_METADATA_LENGTH..] == page[OTA_METADATA_LENGTH..]
  {
    EncodeMetadata(md) + page[OTA_METADATA_LENGTH..]
  }

  /**
   * `verify_current_firmware` writing only the record: the result, the
   * updated record and the pages afterwards.
   */
  function CurrentFirmwareFixedOutcome(m: Memory, bad: set<nat>, current: uint8, md: Metadata)
    : (r: (Option<int>, Metadata, seq<Bytes>))
    requires WellFormed(m.pages) && ValidSlot(current)
    ensures WellFormed(r.2)
  {
    var crc := SlotCrc(m, current, md);
    if crc.None? then (None, md, m.pages)
    else
      var updated := md.(crcShadow := crc.value);
      var page := GetSlotOtaPage(current);
      var w := Programmed(m.pages, bad, page, PageWithRecord(m.pages[page], updated));
      (Some(if w.0 then 0 else -1), updated, w.1)
  }

  method VerifyCurrentFirmwareFixed(dev: Device, current: uint8, md: Metadata)
      returns (r: Option<int>, updated: Metadata)
    requires dev.Valid() && ValidSlot(current)
    modifies dev`pages, dev`history
    ensures dev.Valid()
    ensures (r, updated, dev.pages) == CurrentFirmwareFixedOutcome(old(dev.Contents()), dev.bad, current, md)
  {
    var crc := ComputeSlotCrc(dev.Contents(), current, md);
    if crc.None? {
      return None, md;
    }
    updated := md.(crcShadow := crc.value);
    var page := GetSlotOtaPage(current);
    var ok := dev.WriteAndVerify(page, PageWithRecord(dev.pages[page], updated));
    r := if ok then Some(0) else Some(-1);
  }

  /**
   * With the fix, a successful call leaves the slot holding the updated
   * record, keeps every byte of the first page past the record, image
   * included, and makes the slot valid exactly when the image matches the
   * record's CRC.
   */
  lemma CurrentFirmwareFixedKeepsImage(m: Memory, bad: set<nat>, current: uint8, md: Metadata)
    requires WellFormed(m.pages) && ValidSlot(current)
    ensures var (r, updated, after) := CurrentFirmwareFixedOutcome(m, bad, current, md);
      var page := GetSlotOtaPage(current);
      r == Some(0) ==>
        && SlotMetadata(Memory(after, m.outside), current) == updated
        && after[page][OTA_METADATA_LENGTH..] == m.pages[page][OTA_METADATA_LENGTH..]
        && (IsValid(updated) <==> updated != ERASED_METADATA && SlotCrc(m, current, md) == Some(md.crc))
  {
    var (r, updated, after) := CurrentFirmwareFixedOutcome(m, bad, current, md);
    if r == Some(0) {
      var page := GetSlotOtaPage(current);
      assert after[page] == PageWithRecord(m.pages[page], updated);
      var now := SlotMetadata(Memory(after, m.outside), current);
      assert EncodeMetadata(now) == EncodeMetadata(updated);
      DecodeEncode(now);
      DecodeEncode(updated);
    }
  }

  /**
   * As written, a successful call programs the record followed by RAM, so
   * the page's bytes past the metadata gap, the start of the running image,
   * become RAM contents.
   */
  lemma CurrentFirmwareReplacesImage(m: Memory, bad: set<nat>, current: uint8, md: Metadata, ram: Bytes)
    requires WellFormed(m.pages) && ValidSlot(current) && |ram| == FLASHPAGE_SIZE - OTA_METADATA_LENGTH
    ensures var (r, updated, after) := CurrentFirmwareOutcome(m, bad, current, md, ram);
      r == Some(0) ==>
        after[GetSlotOtaPage(current)][OTA_METADATA_SPACE..] == ram[OTA_METADATA_SPACE - OTA_METADATA_LENGTH..]
  {
    var (r, updated, after) := CurrentFirmwareOutcome(m, bad, current, md, ram);
    if r == Some(0) {
      VerifyCurrentFirmwareOverwritesImage(m.pages[GetSlotOtaPage(current)], updated, ram);
    }
  }
}
