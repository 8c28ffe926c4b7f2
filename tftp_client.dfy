/**
 * The bootloader's TFTP writer: the data callback packs the received byte
 * stream into a FLASHPAGE_SIZE buffer and programs each full buffer to the
 * next page of firmware slot 1; the success stop callback programs the last,
 * partial page and raises `slot_ready`. The static `buf`, `buf_ptr`, `page1`
 * and `page2` are the fields of a Writer; the flash is a Flash.Device.
 */
module TftpClient {
  import opened UInt
  import opened Flash
  import CpuConf

  const FW_SLOT_1_PAGE: nat := CpuConf.FW_SLOT_1_PAGE
  const FW_SLOT_2_PAGE: nat := CpuConf.FW_SLOT_2_PAGE

  /** The writer's state as values: the buffer, its fill level, the page counters and the flash. */
  datatype WriterState = WriterState(buf: Bytes, bufPtr: nat, page1: nat, page2: nat,
                                     pages: seq<Bytes>, ops: seq<Op>)

  /**
   * What every reachable state satisfies: a full-size buffer filled at most
   * to its end, and page counters between their start page and the end of
   * the device (a write past the last page fails, so no counter passes it).
   */
  predicate Sound(s: WriterState)
  {
    && |s.buf| == FLASHPAGE_SIZE && s.bufPtr <= FLASHPAGE_SIZE
    && FW_SLOT_1_PAGE <= s.page1 <= FLASHPAGE_NUMOF
    && FW_SLOT_2_PAGE <= s.page2 <= FLASHPAGE_NUMOF
    && WellFormed(s.pages)
  }

  /** The state the program starts in: static storage is zeroed. */
  function Initial(pages: seq<Bytes>): (s: WriterState)
    requires WellFormed(pages)
    ensures Sound(s) && Stream(s) == []
  {
    WriterState(Zeroes(), 0, FW_SLOT_1_PAGE, FW_SLOT_2_PAGE, pages, [])
  }

  /** A buffer after `memset(buf, 0, sizeof(buf))`. */
  function Zeroes(): Bytes
  {
    seq(FLASHPAGE_SIZE, _ => 0)
  }

  /** The concatenation of a run of pages. */
  function Flat(ps: seq<Bytes>): Bytes
  {
    if ps == [] then [] else Flat(ps[..|ps| - 1]) + ps[|ps| - 1]
  }

  /** The bytes the writer holds: the pages programmed from slot 1's start, then the buffered ones. */
  function Stream(s: WriterState): Bytes
    requires Sound(s)
  {
    Flat(s.pages[FW_SLOT_1_PAGE..s.page1]) + s.buf[..s.bufPtr]
  }

  // ---------------------------------------------------------------------------
  // tftp_save_to_slot1
  // ---------------------------------------------------------------------------

  /**
   * One turn of the loop in `tftp_save_to_slot1`: store the byte while the
   * buffer has room; otherwise program the buffer to `page1` and, on
   * success, move to the next page with an empty buffer. The byte of a turn
   * that programs a page is not stored. False when programming fails.
   */
  function Step(s: WriterState, bad: set<nat>, b: uint8): (r: (bool, WriterState))
    requires Sound(s)
    ensures Sound(r.1) && r.1.page2 == s.page2
    ensures !r.0 ==> r.1.page1 == s.page1 && r.1.bufPtr == s.bufPtr
  {
    if s.bufPtr < FLASHPAGE_SIZE then
      (true, s.(buf := s.buf[s.bufPtr := b], bufPtr := s.bufPtr + 1))
    else
      var w := Programmed(s.pages, bad, s.page1, s.buf);
      var t := s.(pages := w.1, ops := s.ops + [ProgramOp(s.page1, s.buf)]);
      if w.0 then (true, t.(page1 := s.page1 + 1, bufPtr := 0)) else (false, t)
  }

  /** `tftp_save_to_slot1(data)`: the turns in order, stopping at the first failed write. */
  function Save(s: WriterState, bad: set<nat>, data: Bytes): (r: (bool, WriterState))
    requires Sound(s)
    ensures Sound(r.1)
    decreases |data|
  {
    if data == [] then (true, s)
    else
      var (ok, t) := Step(s, bad, data[0]);
      if !ok then (false, t) else Save(t, bad, data[1..])
  }

  // ---------------------------------------------------------------------------
  // write_last_page
  // ---------------------------------------------------------------------------

  /**
   * `write_last_page`: program the buffer to `page1` if it has left slot 1's
   * start page, else to `page2` if that has left slot 2's start page; on
   * success reset that counter, empty the buffer and zero it. With neither
   * counter moved it writes nothing and returns false.
   */
  function LastPage(s: WriterState, bad: set<nat>): (r: (bool, WriterState))
    requires Sound(s)
    ensures Sound(r.1)
  {
    if s.page1 != FW_SLOT_1_PAGE then
      var w := Programmed(s.pages, bad, s.page1, s.buf);
      var t := s.(pages := w.1, ops := s.ops + [ProgramOp(s.page1, s.buf)]);
      if w.0 then (true, t.(page1 := FW_SLOT_1_PAGE, bufPtr := 0, buf := Zeroes())) else (false, t)
    else if s.page2 != FW_SLOT_2_PAGE then
      var w := Programmed(s.pages, bad, s.page2, s.buf);
      var t := s.(pages := w.1, ops := s.ops + [ProgramOp(s.page2, s.buf)]);
      if w.0 then (true, t.(page2 := FW_SLOT_2_PAGE, bufPtr := 0, buf := Zeroes())) else (false, t)
    else
      (false, s)
  }

  // ---------------------------------------------------------------------------
  // The writer
  // ---------------------------------------------------------------------------

  /** The stop events the callback tells apart. */
  datatype Event = Success | PeerError | InternError

  class Writer {
    const buf: array<uint8>
    var bufPtr: nat
    var page1: nat
    var page2: nat
    /** `slot_ready`, defined by the bootloader's main and polled there. */
    var slotReady: bool
    const dev: Device

    predicate Valid()
      reads this, buf, dev
    {
      dev.Valid() && Sound(State())
    }

    function State(): WriterState
      reads this, buf, dev
    {
      WriterState(buf[..], bufPtr, page1, page2, dev.pages, dev.history)
    }

    constructor (dev: Device)
      requires dev.Valid() && dev.history == []
      ensures Valid() && State() == Initial(dev.pages) && !slotReady && this.dev == dev
    {
      buf := new uint8[FLASHPAGE_SIZE](_ => 0);
      bufPtr, page1, page2 := 0, FW_SLOT_1_PAGE, FW_SLOT_2_PAGE;
      slotReady := false;
      this.dev := dev;
      new;
      assert buf[..] == Zeroes();
    }

    /** `tftp_save_to_slot1`. */
    method SaveToSlot1(data: Bytes) returns (ok: bool)
      requires Valid()
      modifies this`bufPtr, this`page1, buf, dev`pages, dev`history
      ensures Valid()
      ensures (ok, State()) == Save(old(State()), dev.bad, data)
    {
      var i := 0;
      while i < |data|
        invariant 0 <= i <= |data| && Valid()
        invariant Save(old(State()), dev.bad, data) == Save(State(), dev.bad, data[i..])
      {
        ghost var before := State();
        ghost var next := Step(before, dev.bad, data[i]);
        assert data[i..][0] == data[i] && data[i..][1..] == data[i + 1..];
        if bufPtr < FLASHPAGE_SIZE {
          buf[bufPtr] := data[i];
          bufPtr := bufPtr + 1;
        } else {
          var written := dev.WriteAndVerify(page1, buf[..]);
          if written {
            page1 := page1 + 1;
            bufPtr := 0;
          } else {
            assert State() == next.1 && !next.0;
            return false;
          }
        }
        assert State() == next.1 && next.0;
        i := i + 1;
      }
      return true;
    }

    /** The `memset(buf, 0, sizeof(buf))` after a last-page write. */
    method ClearBuffer()
      requires buf.Length == FLASHPAGE_SIZE
      modifies buf
      ensures buf[..] == Zeroes()
    {
      var k := 0;
      while k < buf.Length
        invariant k <= buf.Length && forall j :: 0 <= j < k ==> buf[j] == 0
      {
        buf[k] := 0;
        k := k + 1;
      }
    }

    /** `write_last_page`. */
    method WriteLastPage() returns (ok: bool)
      requires Valid()
      modifies this`bufPtr, this`page1, this`page2, buf, dev`pages, dev`history
      ensures Valid()
      ensures (ok, State()) == LastPage(old(State()), dev.bad)
    {
      if page1 != FW_SLOT_1_PAGE {
        ok := dev.WriteAndVerify(page1, buf[..]);
        if ok {
          page1 := FW_SLOT_1_PAGE;
          bufPtr := 0;
          ClearBuffer();
        }
        return;
      }
      if page2 != FW_SLOT_2_PAGE {
        ok := dev.WriteAndVerify(page2, buf[..]);
        if ok {
          page2 := FW_SLOT_2_PAGE;
          bufPtr := 0;
          ClearBuffer();
        }
        return;
      }
      return false;
    }

    /** `_tftp_client_data_cb`: save the block and report it consumed, whatever the save did. */
    method DataCb(offset: uint32, data: Bytes) returns (consumed: int)
      requires Valid()
      modifies this`bufPtr, this`page1, buf, dev`pages, dev`history
      ensures Valid() && consumed == |data|
      ensures State() == Save(old(State()), dev.bad, data).1
    {
      var _ := SaveToSlot1(data);
      consumed := |data|;
    }

    /** `_tftp_client_stop_cb`: on success write the last page, whatever that returns, and raise `slot_ready`. */
    method StopCb(event: Event)
      requires Valid()
      modifies this`bufPtr, this`page1, this`page2, this`slotReady, buf, dev`pages, dev`history
      ensures Valid()
      ensures event == Success ==> State() == LastPage(old(State()), dev.bad).1 && slotReady
      ensures event != Success ==> State() == old(State()) && slotReady == old(slotReady)
    {
      if event == Success {
        var _ := WriteLastPage();
        slotReady := true;
      }
    }
  }

  // ---------------------------------------------------------------------------
  // What the writer does with a stream
  // ---------------------------------------------------------------------------

  /** A byte stored while the buffer has room extends the stream by that byte. */
  lemma StoredByteExtends(s: WriterState, bad: set<nat>, b: uint8)
    requires Sound(s) && s.bufPtr < FLASHPAGE_SIZE
    ensures Step(s, bad, b).0 && Stream(Step(s, bad, b).1) == Stream(s) + [b]
  {
    var t := Step(s, bad, b).1;
    assert t.buf[..t.bufPtr] == s.buf[..s.bufPtr] + [b];
  }

  /** The byte that finds the buffer full is programmed nowhere: the stream does not grow. */
  lemma FlushDropsByte(s: WriterState, bad: set<nat>, b: uint8)
    requires Sound(s) && s.bufPtr == FLASHPAGE_SIZE && s.page1 < FLASHPAGE_NUMOF && s.page1 !in bad
    ensures Step(s, bad, b).0 && Stream(Step(s, bad, b).1) == Stream(s)
  {
    var t := Step(s, bad, b).1;
    FlatWithPage(s.pages, t.pages, s.page1, s.buf);
  }

  /** Hence the outcome of a save does not depend on the byte that triggers a flush. */
  lemma FlushByteIgnored(s: WriterState, bad: set<nat>, a: uint8, b: uint8, rest: Bytes)
    requires Sound(s) && s.bufPtr == FLASHPAGE_SIZE
    ensures Save(s, bad, [a] + rest) == Save(s, bad, [b] + rest)
  {
    assert ([a] + rest)[1..] == rest && ([b] + rest)[1..] == rest;
  }

  /** Programming page `page` with `data` appends `data` to the run of pages up to it. */
  lemma FlatWithPage(pages: seq<Bytes>, after: seq<Bytes>, page: nat, data: Bytes)
    requires FW_SLOT_1_PAGE <= page < |pages| && after == pages[page := data]
    ensures Flat(after[FW_SLOT_1_PAGE..page + 1]) == Flat(pages[FW_SLOT_1_PAGE..page]) + data
  {
    var run := after[FW_SLOT_1_PAGE..page + 1];
    assert run[..|run| - 1] == pages[FW_SLOT_1_PAGE..page];
  }

  /**
   * A write that fails ends the save at once: the counters stay where they
   * were and the rest of the block is ignored.
   */
  lemma FailedWriteStops(s: WriterState, bad: set<nat>, x: uint8, rest: Bytes)
    requires Sound(s) && s.bufPtr == FLASHPAGE_SIZE && (s.page1 == FLASHPAGE_NUMOF || s.page1 in bad)
    ensures var (ok, t) := Save(s, bad, [x] + rest);
      !ok && t.page1 == s.page1 && t.bufPtr == s.bufPtr && t.buf == s.buf
      && t.ops == s.ops + [ProgramOp(s.page1, s.buf)]
  {
  }

  /** The data path never moves `page2`. */
  lemma {:induction false} SaveKeepsPage2(s: WriterState, bad: set<nat>, data: Bytes)
    requires Sound(s)
    ensures Save(s, bad, data).1.page2 == s.page2
    decreases |data|
  {
    if data != [] {
      var (ok, t) := Step(s, bad, data[0]);
      if ok {
        SaveKeepsPage2(t, bad, data[1..]);
      }
    }
  }

  /** A block that fits in the buffer is only buffered: nothing is programmed. */
  lemma {:induction false} SaveWithinPage(s: WriterState, bad: set<nat>, data: Bytes)
    requires Sound(s) && s.bufPtr + |data| <= FLASHPAGE_SIZE
    ensures var (ok, t) := Save(s, bad, data);
      ok && t.pages == s.pages && t.ops == s.ops && t.page1 == s.page1 && t.page2 == s.page2
      && t.bufPtr == s.bufPtr + |data| && Stream(t) == Stream(s) + data
    decreases |data|
  {
    if data != [] {
      StoredByteExtends(s, bad, data[0]);
      var t := Step(s, bad, data[0]).1;
      SaveWithinPage(t, bad, data[1..]);
      assert [data[0]] + data[1..] == data;
    }
  }

  /**
   * As written, an image that never fills the buffer is never programmed:
   * `page1` has not moved, `page2` never moves, so the last-page write does
   * nothing, yet the success callback raises `slot_ready`.
   */
  lemma SmallImageNeverWritten(pages: seq<Bytes>, bad: set<nat>, data: Bytes)
    requires WellFormed(pages) && 0 < |data| <= FLASHPAGE_SIZE
    ensures var (ok, t) := Save(Initial(pages), bad, data);
      ok && Stream(t) == data && !LastPage(t, bad).0 && LastPage(t, bad).1.pages == pages
  {
    SaveWithinPage(Initial(pages), bad, data);
  }

  // ---------------------------------------------------------------------------
  // The writer as evidently intended
  // ---------------------------------------------------------------------------

  /** A turn that stores the triggering byte as the first of the new page. */
  function StepFixed(s: WriterState, bad: set<nat>, b: uint8): (r: (bool, WriterState))
    requires Sound(s)
    ensures Sound(r.1) && r.1.page2 == s.page2
  {
    var (ok, t) := Step(s, bad, b);
    if ok && s.bufPtr == FLASHPAGE_SIZE then (true, t.(buf := t.buf[0 := b], bufPtr := 1)) else (ok, t)
  }

  function SaveFixed(s: WriterState, bad: set<nat>, data: Bytes): (r: (bool, WriterState))
    requires Sound(s)
    ensures Sound(r.1)
    decreases |data|
  {
    if data == [] then (true, s)
    else
      var (ok, t) := StepFixed(s, bad, data[0]);
      if !ok then (false, t) else SaveFixed(t, bad, data[1..])
  }

  /** Every turn that succeeds adds its byte to the stream. */
  lemma StepFixedExtends(s: WriterState, bad: set<nat>, b: uint8)
    requires Sound(s)
    ensures StepFixed(s, bad, b).0 ==> Stream(StepFixed(s, bad, b).1) == Stream(s) + [b]
  {
    if s.bufPtr < FLASHPAGE_SIZE {
      StoredByteExtends(s, bad, b);
    } else if StepFixed(s, bad, b).0 {
      var t := StepFixed(s, bad, b).1;
      FlatWithPage(s.pages, t.pages, s.page1, s.buf);
      assert s.buf[..s.bufPtr] == s.buf;
      assert t.buf[..t.bufPtr] == [b];
    }
  }

  /** A save that succeeds holds every byte of the block, in order. */
  lemma {:induction false} SaveFixedKeepsStream(s: WriterState, bad: set<nat>, data: Bytes)
    requires Sound(s)
    ensures SaveFixed(s, bad, data).0 ==> Stream(SaveFixed(s, bad, data).1) == Stream(s) + data
    decreases |data|
  {
    if data != [] {
      StepFixedExtends(s, bad, data[0]);
      var (ok, t) := StepFixed(s, bad, data[0]);
      if ok {
        SaveFixedKeepsStream(t, bad, data[1..]);
        assert [data[0]] + data[1..] == data;
      }
    }
  }

  /** The last-page write, also when the image ended inside slot 1's first page. */
  function LastPageFixed(s: WriterState, bad: set<nat>): (r: (bool, WriterState))
    requires Sound(s)
    ensures Sound(r.1)
  {
    if s.page1 != FW_SLOT_1_PAGE || s.bufPtr > 0 then
      var w := Programmed(s.pages, bad, s.page1, s.buf);
      var t := s.(pages := w.1, ops := s.ops + [ProgramOp(s.page1, s.buf)]);
      if w.0 then (true, t.(page1 := FW_SLOT_1_PAGE, bufPtr := 0, buf := Zeroes())) else (false, t)
    else
      LastPage(s, bad)
  }

  /**
   * When the last page programs, the pages from slot 1's start hold the
   * whole stream, followed by what was left in the buffer past it.
   */
  lemma LastPageFixedWritesStream(s: WriterState, bad: set<nat>)
    requires Sound(s) && (s.page1 != FW_SLOT_1_PAGE || s.bufPtr > 0)
    requires s.page1 < FLASHPAGE_NUMOF && s.page1 !in bad
    ensures var (ok, t) := LastPageFixed(s, bad);
      ok && Flat(t.pages[FW_SLOT_1_PAGE..s.page1 + 1]) == Stream(s) + s.buf[s.bufPtr..]
  {
    var t := LastPageFixed(s, bad).1;
    FlatWithPage(s.pages, t.pages, s.page1, s.buf);
    assert s.buf == s.buf[..s.bufPtr] + s.buf[s.bufPtr..];
  }

  /** So with the fix a one-page image reaches slot 1's first page. */
  lemma SmallImageWrittenFixed(pages: seq<Bytes>, bad: set<nat>, data: Bytes)
    requires WellFormed(pages) && 0 < |data| <= FLASHPAGE_SIZE && FW_SLOT_1_PAGE !in bad
    ensures var (ok, t) := SaveFixed(Initial(pages), bad, data);
      ok && LastPageFixed(t, bad).0 && LastPageFixed(t, bad).1.pages[FW_SLOT_1_PAGE][..|data|] == data
  {
    var s := Initial(pages);
    SaveFixedWithinPage(s, bad, data);
    var t := SaveFixed(s, bad, data).1;
    LastPageFixedWritesStream(t, bad);
    var after := LastPageFixed(t, bad).1.pages;
    assert after[FW_SLOT_1_PAGE..FW_SLOT_1_PAGE + 1] == [after[FW_SLOT_1_PAGE]];
    assert Flat([after[FW_SLOT_1_PAGE]]) == after[FW_SLOT_1_PAGE];
  }

  lemma {:induction false} SaveFixedWithinPage(s: WriterState, bad: set<nat>, data: Bytes)
    requires Sound(s) && s.bufPtr + |data| <= FLASHPAGE_SIZE
    ensures var (ok, t) := SaveFixed(s, bad, data);
      ok && t.page1 == s.page1 && t.bufPtr == s.bufPtr + |data| && Stream(t) == Stream(s) + data
    decreases |data|
  {
    if data != [] {
      StoredByteExtends(s, bad, data[0]);
      var t := StepFixed(s, bad, data[0]).1;
      SaveFixedWithinPage(t, bad, data[1..]);
      assert [data[0]] + data[1..] == data;
    }
  }
}
