/**
 * The firmware slot map of the STM32F411RE: a 16 KiB bootloader at the start
 * of flash, then two firmware slots, each preceded by FW_METADATA_SPACE bytes
 * of metadata. The build picks one of two layouts: equal slots of
 * FW_SLOT_PAGES pages, or slots made of whole erase sectors.
 */
module CpuConf {
  import opened UInt

  const FLASH_BASE: nat := 0x0800_0000
  const FW_METADATA_SPACE: nat := 0x200
  const MAX_FW_SLOTS: nat := 2
  const BOOTLOADER_SPACE: nat := 0x4000
  const VTOR_RESET_HANDLER: nat := 4
  /** The slot manager's gap between a slot's start and its vector table. */
  const OTA_METADATA_SPACE: nat := 0x100

  /** Page layout */
  const FW_SLOT_PAGES: nat := 120
  const FW_SLOT_1_PAGE: nat := 8
  const FW_SLOT_2_PAGE: nat := 128

  /** Sector layout */
  const FW_SLOT_1_START_SECTOR: nat := 1
  const FW_SLOT_1_SIZE: nat := 0x1C000
  const FW_SLOT_2_START_SECTOR: nat := 5
  const FW_SLOT_2_SIZE: nat := 0x20000

  const ADDRESS_SPACE: nat := 0x1_0000_0000

  /**
   * Which half of the header the build selects. The slot constants follow
   * FLASH_SECTORS and the three getters follow FLASH_PAGES, so the header
   * compiles only when exactly one of the two is defined; `Pages` carries
   * FLASHPAGE_SIZE, which the header itself does not define.
   */
  datatype Layout = Pages(pageSize: nat) | Sectors

  function FwSlotSize(pageSize: nat): nat
  {
    pageSize * FW_SLOT_PAGES
  }

  /** FW_SLOT_1 / FW_SLOT_2, truncated to the 32 bits the getters return. */
  function FwSlot1(): nat { FLASH_BASE + BOOTLOADER_SPACE }

  function FwSlot2(layout: Layout): nat
  {
    match layout
    case Pages(ps) => (FwSlot1() + FwSlotSize(ps)) % ADDRESS_SPACE
    case Sectors => FwSlot1() + FW_SLOT_1_SIZE
  }

  function GetSlotAddress(layout: Layout, slot: uint8): uint32
  {
    if slot == 1 then FwSlot1()
    else if slot == 2 then FwSlot2(layout)
    else 0
  }

  function GetSlotPage(layout: Layout, slot: uint8): uint32
  {
    match layout
    case Pages(_) =>
      if slot == 1 then FW_SLOT_1_PAGE else if slot == 2 then FW_SLOT_2_PAGE else 0
    case Sectors =>
      if slot == 1 then FW_SLOT_1_START_SECTOR else if slot == 2 then FW_SLOT_2_START_SECTOR else 0
  }

  function GetSlotSize(layout: Layout, slot: uint8): uint32
  {
    match layout
    case Pages(ps) =>
      if slot == 1 || slot == 2 then FwSlotSize(ps) % ADDRESS_SPACE else 0
    case Sectors =>
      if slot == 1 then FW_SLOT_1_SIZE else if slot == 2 then FW_SLOT_2_SIZE else 0
  }

  /** A page size for which a slot still fits the 32-bit address space. */
  predicate SanePageSize(ps: nat)
  {
    0 < ps <= 0x10000
  }

  predicate ValidLayout(layout: Layout)
  {
    layout.Pages? ==> SanePageSize(layout.pageSize)
  }

  /**
   * The three getters answer 0 exactly for the slot numbers other than 1 and
   * 2, and every real slot has an address past the bootloader and a size.
   */
  lemma GettersZeroIffNoSlot(layout: Layout, slot: uint8)
    requires ValidLayout(layout)
    ensures (1 <= slot <= MAX_FW_SLOTS) <==> GetSlotAddress(layout, slot) != 0
    ensures (1 <= slot <= MAX_FW_SLOTS) <==> GetSlotPage(layout, slot) != 0
    ensures (1 <= slot <= MAX_FW_SLOTS) <==> GetSlotSize(layout, slot) != 0
    ensures 1 <= slot <= MAX_FW_SLOTS ==> GetSlotAddress(layout, slot) >= FLASH_BASE + BOOTLOADER_SPACE
  {
  }

  /** Slot 1 starts right after the bootloader and slot 2 right after slot 1. */
  lemma SlotsAreAdjacent(layout: Layout)
    requires ValidLayout(layout)
    ensures GetSlotAddress(layout, 1) == FLASH_BASE + BOOTLOADER_SPACE
    ensures GetSlotAddress(layout, 2) == GetSlotAddress(layout, 1) + GetSlotSize(layout, 1)
  {
    if layout.Pages? {
      assert FwSlotSize(layout.pageSize) <= 0x10000 * FW_SLOT_PAGES;
    }
  }

  /** Both slots lie inside the 512 KiB flash of the F411RE when pages are 2 KiB. */
  lemma SlotsFitTheDevice(layout: Layout)
    requires layout == Sectors || layout == Pages(2048)
    ensures GetSlotAddress(layout, 2) + GetSlotSize(layout, 2) <= FLASH_BASE + 0x80000
  {
  }

  /** Start of each erase sector of the F411RE, relative to FLASH_BASE. */
  function SectorStart(sector: nat): (r: nat)
    requires sector <= 8
    ensures sector > 0 ==> r > SectorStart(sector - 1)
  {
    if sector <= 4 then sector * 0x4000
    else if sector == 5 then 0x20000
    else 0x20000 * (sector - 4)
  }

  /**
   * In the sector layout each slot starts on its start sector and ends on a
   * sector boundary: slot 1 is sectors 1..4 and slot 2 is sector 5.
   */
  lemma SectorSlotsAlignWithSectors()
    ensures FLASH_BASE + SectorStart(GetSlotPage(Sectors, 1)) == GetSlotAddress(Sectors, 1)
    ensures FLASH_BASE + SectorStart(GetSlotPage(Sectors, 2)) == GetSlotAddress(Sectors, 2)
    ensures GetSlotAddress(Sectors, 1) + GetSlotSize(Sectors, 1) == FLASH_BASE + SectorStart(5)
    ensures GetSlotAddress(Sectors, 2) + GetSlotSize(Sectors, 2) == FLASH_BASE + SectorStart(6)
  {
  }

  /**
   * In the page layout slot 2's first page is slot 1's first page plus
   * FW_SLOT_PAGES, and the page numbers name the slot addresses exactly when
   * FLASHPAGE_SIZE is 2048.
   */
  lemma PageNumbersMatchAddresses(ps: nat)
    requires SanePageSize(ps)
    ensures GetSlotPage(Pages(ps), 2) == GetSlotPage(Pages(ps), 1) + FW_SLOT_PAGES
    ensures (FLASH_BASE + GetSlotPage(Pages(ps), 1) * ps == GetSlotAddress(Pages(ps), 1)
             && FLASH_BASE + GetSlotPage(Pages(ps), 2) * ps == GetSlotAddress(Pages(ps), 2))
            <==> ps == 2048
  {
    assert FwSlotSize(ps) <= 0x10000 * FW_SLOT_PAGES;
  }

  /** CPU_FLASH_BASE: the running image's vector table in a slot build, else FLASH_BASE. */
  function CpuFlashBase(layout: Layout, fwSlot: Option<uint8>): nat
    requires fwSlot.Some? ==> 1 <= fwSlot.value <= MAX_FW_SLOTS
  {
    match fwSlot
    case None => FLASH_BASE
    case Some(s) => GetSlotAddress(layout, s) + FW_METADATA_SPACE
  }

  /**
   * In a slot build the vector table sits FW_METADATA_SPACE past the slot
   * start, which is not the OTA_METADATA_SPACE gap that the slot manager
   * jumps over.
   */
  lemma VectorTableOffset(layout: Layout, s: uint8)
    requires 1 <= s <= MAX_FW_SLOTS
    ensures CpuFlashBase(layout, Some(s)) - GetSlotAddress(layout, s) == FW_METADATA_SPACE
    ensures CpuFlashBase(layout, Some(s)) != GetSlotAddress(layout, s) + OTA_METADATA_SPACE
    ensures CpuFlashBase(layout, None) == FLASH_BASE
  {
  }
}
