/**
 * The internal flash of the STM32F103RE as the slot manager and the TFTP
 * writer use it: 256 pages of 2048 bytes mapped at 0x08000000, erased to 0xFF,
 * programmed a whole page at a time. RIOT's `periph/flashpage` driver is not
 * part of this model; its two entry points used here are given the contract
 * of the driver's documentation: `flashpage_write(page, NULL)` erases a page,
 * and `flashpage_write_and_verify(page, data)` programs FLASHPAGE_SIZE bytes
 * from `data` and reports whether the page reads back equal.
 */
module Flash {
  import opened UInt

  const FLASH_BASE: nat := 0x0800_0000
  const FLASHPAGE_SIZE: nat := 2048
  const FLASHPAGE_NUMOF: nat := 256
  const ERASED: uint8 := 0xFF
  /** Addresses are 32 bits wide. */
  const ADDRESS_SPACE: nat := 0x1_0000_0000

  /**
   * What the CPU reads: the page array inside the flash window and the
   * `outside` function everywhere else (RAM, peripherals, unmapped space).
   */
  datatype Memory = Memory(pages: seq<Bytes>, outside: nat -> uint8)

  predicate WellFormed(pages: seq<Bytes>)
  {
    |pages| == FLASHPAGE_NUMOF && forall p :: 0 <= p < |pages| ==> |pages[p]| == FLASHPAGE_SIZE
  }

  function ErasedPage(): (r: Bytes)
    ensures |r| == FLASHPAGE_SIZE && forall i :: 0 <= i < |r| ==> r[i] == ERASED
  {
    seq(FLASHPAGE_SIZE, i => ERASED)
  }

  /** The byte at a 32-bit address. */
  function ByteAt(m: Memory, addr: nat): uint8
    requires WellFormed(m.pages)
  {
    if FLASH_BASE <= addr < FLASH_BASE + FLASHPAGE_NUMOF * FLASHPAGE_SIZE then
      m.pages[(addr - FLASH_BASE) / FLASHPAGE_SIZE][(addr - FLASH_BASE) % FLASHPAGE_SIZE]
    else
      m.outside(addr)
  }

  /** `int_flash_read`: `count` bytes upwards from `addr`; the pointer wraps at 2^32. */
  function Read(m: Memory, addr: nat, count: nat): (r: Bytes)
    requires WellFormed(m.pages)
    ensures |r| == count
  {
    seq<uint8>(count, i requires 0 <= i < count => ByteAt(m, (addr + i) % ADDRESS_SPACE))
  }

  /** A read that does not wrap splits at any point. */
  lemma ReadSplit(m: Memory, addr: nat, n: nat, k: nat)
    requires WellFormed(m.pages)
    ensures Read(m, addr, n + k) == Read(m, addr, n) + Read(m, addr + n, k)
  {
    var whole := Read(m, addr, n + k);
    assert whole[..n] == Read(m, addr, n);
    assert whole[n..] == Read(m, addr + n, k);
    assert whole == whole[..n] + whole[n..];
  }

  /** Division by the page size of a page start plus an in-page offset. */
  lemma PageDivMod(page: nat, offset: nat)
    requires offset < FLASHPAGE_SIZE
    ensures (page * FLASHPAGE_SIZE + offset) / FLASHPAGE_SIZE == page
    ensures (page * FLASHPAGE_SIZE + offset) % FLASHPAGE_SIZE == offset
  {
  }

  /** A read inside one page is a slice of that page. */
  lemma ReadInPage(m: Memory, page: nat, offset: nat, count: nat)
    requires WellFormed(m.pages) && page < FLASHPAGE_NUMOF && offset + count <= FLASHPAGE_SIZE
    ensures Read(m, FLASH_BASE + page * FLASHPAGE_SIZE + offset, count) == m.pages[page][offset..offset + count]
  {
    var base := FLASH_BASE + page * FLASHPAGE_SIZE + offset;
    assert page * FLASHPAGE_SIZE <= (FLASHPAGE_NUMOF - 1) * FLASHPAGE_SIZE;
    forall i | 0 <= i < count
      ensures Read(m, base, count)[i] == m.pages[page][offset + i]
    {
      var a := base + i;
      assert a % ADDRESS_SPACE == a;
      assert a - FLASH_BASE == page * FLASHPAGE_SIZE + (offset + i);
      PageDivMod(page, offset + i);
      assert FLASH_BASE <= a < FLASH_BASE + FLASHPAGE_NUMOF * FLASHPAGE_SIZE;
      assert ByteAt(m, a) == m.pages[page][offset + i];
    }
  }

  /** One operation the driver performed, in the order performed. */
  datatype Op = EraseOp(page: nat) | ProgramOp(page: nat, data: Bytes)

  /**
   * The outcome of `flashpage_write_and_verify`: programming fails on the
   * pages in `bad` and on page numbers past the device (the driver asserts
   * on these; the model reports a failure). A page that failed to program is
   * left erased.
   */
  function Programmed(pages: seq<Bytes>, bad: set<nat>, page: nat, data: Bytes): (r: (bool, seq<Bytes>))
    requires WellFormed(pages) && |data| == FLASHPAGE_SIZE
    ensures WellFormed(r.1)
    ensures r.0 <==> page < FLASHPAGE_NUMOF && page !in bad
    ensures r.0 ==> r.1 == pages[page := data]
  {
    if page >= FLASHPAGE_NUMOF then (false, pages)
    else if page in bad then (false, pages[page := ErasedPage()])
    else (true, pages[page := data])
  }

  class Device {
    var pages: seq<Bytes>
    var history: seq<Op>
    const outside: nat -> uint8
    const bad: set<nat>

    predicate Valid()
      reads this
    {
      WellFormed(pages)
    }

    function Contents(): Memory
      reads this
    {
      Memory(pages, outside)
    }

    constructor (pages: seq<Bytes>, outside: nat -> uint8, bad: set<nat>)
      requires WellFormed(pages)
      ensures Valid() && this.pages == pages && history == []
      ensures this.outside == outside && this.bad == bad
    {
      this.pages := pages;
      this.outside := outside;
      this.bad := bad;
      history := [];
    }

    /** `flashpage_write(page, NULL)`: erase one page. */
    method Erase(page: nat)
      requires Valid() && page < FLASHPAGE_NUMOF
      modifies this`pages, this`history
      ensures Valid()
      ensures pages == old(pages)[page := ErasedPage()]
      ensures history == old(history) + [EraseOp(page)]
    {
      pages := pages[page := ErasedPage()];
      history := history + [EraseOp(page)];
    }

    /** `flashpage_write_and_verify(page, data)`; `ok` is FLASHPAGE_OK. */
    method WriteAndVerify(page: nat, data: Bytes) returns (ok: bool)
      requires Valid() && |data| == FLASHPAGE_SIZE
      modifies this`pages, this`history
      ensures Valid()
      ensures (ok, pages) == Programmed(old(pages), bad, page, data)
      ensures history == old(history) + [ProgramOp(page, data)]
    {
      var r := Programmed(pages, bad, page, data);
      ok, pages := r.0, r.1;
      history := history + [ProgramOp(page, data)];
    }
  }
}
