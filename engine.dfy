/**
  The register-level transfer engine of libraries/SPI/SPI.cpp: spi_set_tmod and
  spi_send_receive_data_standard.

  The engine polls TXFLR and RXFLR once per burst. The model takes the levels
  those polls observe as input sequences, one entry per poll. When a loop still
  owes bytes after the last observed poll, the model stops and reports
  StillPolling: the source would go on polling, with the peripheral still
  enabled and the slave still selected, which is the state the model leaves.
 */
module Engine {
  import opened FrameFormat
  import opened Registers

  datatype Outcome =
    | AssertFailed  // a configASSERT fired; execution halts before any register is written
    | Done          // both loops ran to completion and the peripheral is deselected and disabled
    | StillPolling  // the observed polls ran out while a loop still owed bytes

  /** The buses spi_send_receive_data_standard accepts. */
  predicate ValidBus(bus: nat)
  {
    bus < SpiDeviceMax && bus != 2
  }

  /** The frame width the engine derives from CTRLR0 on a given bus. */
  function EngineWidth(ctrlr0: bv32, bus: nat): FrameWidth
    requires bus != 2
  {
    FrameSize(BitLength(ctrlr0, bus))
  }

  /**
    CTRLR1 as programmed: (uint32_t)(len / frame_width - 1), the zero-based
    frame count, which wraps to 0xFFFFFFFF when len is shorter than one frame.
   */
  function FrameCountRegister(len: nat, fw: FrameWidth): (r: Word)
    ensures len >= fw.Bytes() && fw.Count(len) <= 0x1_0000_0000 ==> r + 1 == fw.Count(len)
    ensures len < fw.Bytes() ==> r == 0xFFFF_FFFF
    ensures (r + 1) % 0x1_0000_0000 == fw.Count(len) % 0x1_0000_0000
  {
    WholeFrames(len, fw);
    (fw.Count(len) - 1) % 0x1_0000_0000
  }

  /**
    CTRLR0 and CTRLR1 as the set-up of spi_send_receive_data_standard leaves
    them, from CTRLR0 as it was before: only the TMOD bits of CTRLR0 have
    changed, to transmit-and-receive, so the frame width it gives is the same
    (Registers.TmodKeepsBitLength), and CTRLR1 is the frame count for len.
   */
  predicate SetUpFor(before: bv32, ctrlr0: bv32, ctrlr1: Word, bus: nat, len: nat)
    requires bus != 2
  {
    && ctrlr0 == SetBits(before, TmodMask(bus), TmodTransRecv << TmodOffset(bus))
    && ctrlr1 == FrameCountRegister(len, EngineWidth(before, bus))
  }

  /** SER as programmed: 1U << chip_select, one bit per slave line. */
  function SelectMask(chipSelect: nat): (m: bv32)
    requires chipSelect < 32
    ensures m != 0
  {
    (1 as bv32) << chipSelect
  }

  /**
    Enough received words are waiting for every frame the receive loop can
    possibly read.
   */
  predicate EnoughReplies(regs: SpiRegs, bus: nat, len: nat)
    reads regs
  {
    ValidBus(bus) ==> EngineWidth(regs.ctrlr0, bus).Count(len) <= |regs.drPending|
  }

  /**
    The condition under which the transmit loop is guaranteed to finish within
    the observed polls: whole frames only, and every poll sees room for at least
    one frame.
   */
  predicate TransmitProgresses(txLevels: seq<FifoLevel>, len: nat, fw: FrameWidth)
  {
    && fw.Spare(len) == 0
    && fw.Count(len) <= |txLevels|
    && forall k :: 0 <= k < |txLevels| ==> fw.Bytes() <= FifoDepth - txLevels[k]
  }

  /** The same for the receive loop: every poll sees at least w entries. */
  predicate ReceiveProgresses(rxLevels: seq<FifoLevel>, len: nat, fw: FrameWidth)
  {
    && fw.Spare(len) == 0
    && fw.Count(len) <= |rxLevels|
    && forall k :: 0 <= k < |rxLevels| ==> fw.Bytes() <= rxLevels[k]
  }

  /** The FIFO a loop polls: TXFLR tells the transmit loop how full its FIFO is, RXFLR the receive loop. */
  datatype Direction = Sending | Receiving

  /** The room one poll offers a burst: the free entries 32 - TXFLR, or the RXFLR entries waiting. */
  function Room(dir: Direction, level: FifoLevel): (n: nat)
    ensures n <= FifoDepth
    ensures dir == Sending ==> n + level == FifoDepth
    ensures dir == Receiving ==> n == level
  {
    match dir
    case Sending => FifoDepth - level
    case Receiving => level
  }

  /**
    The reference for a polling loop: the bytes still owed after one burst per
    observed level, each burst cut from the room of that poll by Burst.
   */
  function Owed(dir: Direction, levels: seq<FifoLevel>, len: nat, fw: FrameWidth): (left: nat)
    ensures left <= len
  {
    if levels == [] then len
    else
      var before := Owed(dir, levels[..|levels| - 1], len, fw);
      before - Burst(Room(dir, levels[|levels| - 1]), before, fw)
  }

  /** Poll k takes one burst off what the earlier polls left owing. */
  lemma OwedStep(dir: Direction, levels: seq<FifoLevel>, k: nat, len: nat, fw: FrameWidth)
    requires k < |levels|
    ensures Owed(dir, levels[..k + 1], len, fw)
         == Owed(dir, levels[..k], len, fw) - Burst(Room(dir, levels[k]), Owed(dir, levels[..k], len, fw), fw)
  {
    assert levels[..k + 1][..k] == levels[..k];
  }

  /** The step of a polling loop: a burst cut from this poll's room, off what is owed now. */
  lemma OwedAfterPoll(dir: Direction, levels: seq<FifoLevel>, k: nat, len: nat, fw: FrameWidth,
                      owed: nat, room: nat, burst: nat)
    requires k < |levels| && owed == Owed(dir, levels[..k], len, fw) && room == Room(dir, levels[k])
    requires burst == Burst(room, owed, fw)
    ensures Owed(dir, levels[..k + 1], len, fw) == owed - burst
  {
    OwedStep(dir, levels, k, len, fw);
  }

  /** Once nothing is owed, later polls change nothing. */
  lemma {:induction false} OwedStaysZero(dir: Direction, levels: seq<FifoLevel>, k: nat, len: nat, fw: FrameWidth)
    requires k <= |levels| && Owed(dir, levels[..k], len, fw) == 0
    ensures Owed(dir, levels, len, fw) == 0
    decreases |levels| - k
  {
    if k == |levels| {
      assert levels[..k] == levels;
    } else {
      OwedStep(dir, levels, k, len, fw);
      OwedStaysZero(dir, levels, k + 1, len, fw);
    }
  }

  /** Polls that never offer room for a whole frame never move a byte. */
  lemma {:induction false} NoRoomNoProgress(dir: Direction, levels: seq<FifoLevel>, len: nat, fw: FrameWidth)
    requires forall k :: 0 <= k < |levels| ==> Room(dir, levels[k]) < fw.Bytes()
    ensures Owed(dir, levels, len, fw) == len
  {
    if levels != [] {
      var front := levels[..|levels| - 1];
      assert forall k :: 0 <= k < |front| ==> front[k] == levels[k];
      NoRoomNoProgress(dir, front, len, fw);
    }
  }

  /**
    A polling loop stops when nothing is owed or the observed polls run out.
    Then it has finished exactly when the reference says nothing is owed after
    every poll; a length that is not a whole number of frames never finishes;
    and a loop that moved a frame per poll, with polls enough for every frame,
    has finished.
   */
  lemma PollsExhausted(dir: Direction, levels: seq<FifoLevel>, polls: nat, i: nat, left: nat,
                       len: nat, fw: FrameWidth, progress: bool)
    requires polls <= |levels| && fw.Offset(i) + left == len
    requires left == Owed(dir, levels[..polls], len, fw)
    requires left == 0 || polls == |levels|
    requires progress ==> fw.Spare(len) == 0 && fw.Count(len) <= |levels| && polls <= i
    ensures left == 0 <==> Owed(dir, levels, len, fw) == 0
    ensures fw.Spare(len) != 0 ==> left != 0
    ensures progress ==> left == 0
  {
    if left == 0 {
      ExactFrames(i, len, fw);
      OwedStaysZero(dir, levels, polls, len, fw);
    } else {
      assert levels[..polls] == levels;
      if progress {
        NothingOwed(i, left, len, fw);
      }
    }
  }

  /**
    RXFLR counts entries, the receive loop bytes. If RXFLR never reports more
    entries than there are frames still owed, a receive of 16- or 32-bit frames
    always owes at least one frame, however many polls it makes.
   */
  lemma {:induction false} WideReceiveNeverCompletes(rxLevels: seq<FifoLevel>, len: nat, fw: FrameWidth)
    requires fw != Char && len >= fw.Bytes()
    requires forall k :: 0 <= k < |rxLevels| ==> rxLevels[k] <= fw.Count(Owed(Receiving, rxLevels[..k], len, fw))
    ensures Owed(Receiving, rxLevels, len, fw) >= fw.Bytes()
  {
    if rxLevels != [] {
      var n := |rxLevels|;
      var front := rxLevels[..n - 1];
      forall k | 0 <= k < n - 1
        ensures front[k] <= fw.Count(Owed(Receiving, front[..k], len, fw))
      {
        assert front[..k] == rxLevels[..k];
      }
      WideReceiveNeverCompletes(front, len, fw);
      assert rxLevels[..n - 1][..n - 1] == front;
      WideBurstLeavesAFrame(rxLevels[n - 1], Owed(Receiving, front, len, fw), fw);
    }
  }

  /**
    spi_set_tmod: a read-modify-write of the two-bit TMOD field of CTRLR0,
    whose position depends on the bus.
   */
  method SetTmod(regs: SpiRegs, bus: nat, tmod: bv32) returns (ok: bool)
    modifies regs`ctrlr0
    ensures ok == (bus < SpiDeviceMax)
    ensures ok ==> regs.ctrlr0 == SetBits(old(regs.ctrlr0), TmodMask(bus), tmod << TmodOffset(bus))
    ensures !ok ==> regs.ctrlr0 == old(regs.ctrlr0)
  {
    if bus >= SpiDeviceMax {
      return false;
    }
    regs.ctrlr0 := SetBits(regs.ctrlr0, TmodMask(bus), tmod << TmodOffset(bus));
    ok := true;
  }

  /**
    One transmit burst, the inner for loop: count frames starting at frame i0,
    each written to DR. written0 is what DR held before the transfer began.
   */
  method PushFrames(regs: SpiRegs, tx: seq<Byte>, fw: FrameWidth, i0: nat, count: nat, ghost written0: seq<Word>)
    returns (i: nat)
    requires fw.Offset(i0 + count) <= |tx| && regs.Active()
    requires regs.drWritten == written0 + Frames(tx, fw, i0)
    modifies regs`drWritten
    ensures i == i0 + count
    ensures regs.drWritten == written0 + Frames(tx, fw, i)
  {
    i := i0;
    for index := 0 to count
      invariant i == i0 + index
      invariant regs.drWritten == written0 + Frames(tx, fw, i)
    {
      OffsetMonotone(i + 1, i0 + count, fw);
      var x := FrameAt(tx, i, fw);
      regs.WriteDr(x);
      i := i + 1;
    }
  }

  /**
    One pass of the transmit loop, poll number polls: with 32 - TXFLR free
    entries, the burst cut from them goes out as whole frames from frame i on,
    and what is still owed drops the way Owed says.
   */
  method TransmitPoll(regs: SpiRegs, tx: seq<Byte>, len: nat, fw: FrameWidth, txLevels: seq<FifoLevel>,
                      polls: nat, i: nat, txLen: nat, ghost written0: seq<Word>)
    returns (next: nat, left: nat)
    requires len <= |tx| && regs.Active() && polls < |txLevels|
    requires fw.Offset(i) + txLen == len && txLen == Owed(Sending, txLevels[..polls], len, fw)
    requires regs.drWritten == written0 + Frames(tx, fw, i)
    requires TransmitProgresses(txLevels, len, fw) ==> polls <= i
    modifies regs`drWritten
    ensures fw.Offset(next) + left == len && left == Owed(Sending, txLevels[..polls + 1], len, fw)
    ensures regs.drWritten == written0 + Frames(tx, fw, next)
    ensures TransmitProgresses(txLevels, len, fw) && txLen != 0 ==> polls + 1 <= next
  {
    var free := FifoDepth - txLevels[polls];
    if TransmitProgresses(txLevels, len, fw) && txLen != 0 {
      BurstMovesAFrame(i, txLen, len, free, fw);
    }
    var fifoLen := Burst(free, txLen, fw);
    BurstAdvance(i, fifoLen, txLen, len, fw);
    OwedAfterPoll(Sending, txLevels, polls, len, fw, txLen, free, fifoLen);
    next := PushFrames(regs, tx, fw, i, fw.Count(fifoLen), written0);
    left := txLen - fifoLen;
  }

  /**
    The transmit loop, while (tx_len): each poll of TXFLR gives one burst of
    whole frames, pushed to DR in buffer order. Returns how many frames were
    sent and how many polls were used.
   */
  method Transmit(regs: SpiRegs, tx: seq<Byte>, len: nat, fw: FrameWidth, txLevels: seq<FifoLevel>)
    returns (sent: nat, polls: nat)
    requires len <= |tx| && regs.Active()
    modifies regs`drWritten
    ensures fw.Offset(sent) <= len && polls <= |txLevels|
    ensures regs.drWritten == old(regs.drWritten) + Frames(tx, fw, sent)
    ensures fw.Offset(sent) < len ==> polls == |txLevels|
    ensures fw.Spare(len) != 0 ==> fw.Offset(sent) < len
    ensures TransmitProgresses(txLevels, len, fw) ==> fw.Offset(sent) == len
    ensures len - fw.Offset(sent) == Owed(Sending, txLevels[..polls], len, fw)
    ensures polls > 0 ==> Owed(Sending, txLevels[..polls - 1], len, fw) > 0
    ensures fw.Offset(sent) == len <==> Owed(Sending, txLevels, len, fw) == 0
  {
    var txLen := len;
    var i: nat := 0;
    polls := 0;
    while txLen != 0 && polls < |txLevels|
      invariant fw.Offset(i) + txLen == len
      invariant polls <= |txLevels|
      invariant regs.drWritten == old(regs.drWritten) + Frames(tx, fw, i)
      invariant TransmitProgresses(txLevels, len, fw) ==> polls <= i
      invariant txLen == Owed(Sending, txLevels[..polls], len, fw)
      invariant polls > 0 ==> Owed(Sending, txLevels[..polls - 1], len, fw) > 0
      decreases |txLevels| - polls
    {
      i, txLen := TransmitPoll(regs, tx, len, fw, txLevels, polls, i, txLen, old(regs.drWritten));
      polls := polls + 1;
    }
    sent := i;
    PollsExhausted(Sending, txLevels, polls, i, txLen, len, fw, TransmitProgresses(txLevels, len, fw));
  }

  /**
    Stores one received word into rx_buff at frame k, the way the casts
    ((uint32_t *)rx_buff)[k], ((uint16_t *)rx_buff)[k] and rx_buff[k] do.
   */
  method StoreFrame(rx: array<Byte>, k: nat, x: Word, fw: FrameWidth)
    requires fw.Offset(k + 1) <= rx.Length
    modifies rx
    ensures rx[..] == old(rx[..])[..fw.Offset(k)] + StoredBytes(x, fw) + old(rx[..])[fw.Offset(k + 1)..]
  {
    var bytes := StoredBytes(x, fw);
    var base := fw.Offset(k);
    assert base + fw.Bytes() == fw.Offset(k + 1);
    forall j | 0 <= j < fw.Bytes() {
      rx[base + j] := bytes[j];
    }
    assert rx[..] == old(rx[..])[..base] + bytes + old(rx[..])[base + fw.Bytes()..];
  }

  /**
    The state of a receive after i frames: DR still holds the replies from
    frame i on, and rx_buff holds the first i replies as bytes followed by its
    untouched tail. pending0 and rx0 are DR's replies and the buffer as they
    were before the transfer began.
   */
  ghost predicate ReceivedUpTo(regs: SpiRegs, rx: array<Byte>, fw: FrameWidth, i: nat,
                               pending0: seq<Word>, rx0: seq<Byte>)
    reads regs, rx
  {
    && i <= |pending0| && fw.Offset(i) <= |rx0|
    && regs.drPending == pending0[i..]
    && rx[..] == Deframe(pending0[..i], fw) + rx0[fw.Offset(i)..]
  }

  /** One receive burst, the inner for loop: count frames read from DR and stored from frame i0 on. */
  method PullFrames(regs: SpiRegs, rx: array<Byte>, fw: FrameWidth, i0: nat, count: nat,
                    ghost pending0: seq<Word>, ghost rx0: seq<Byte>)
    returns (i: nat)
    requires fw.Offset(i0 + count) <= rx.Length == |rx0| && i0 + count <= |pending0|
    requires regs.Active() && ReceivedUpTo(regs, rx, fw, i0, pending0, rx0)
    modifies regs`drPending, rx
    ensures i == i0 + count && ReceivedUpTo(regs, rx, fw, i, pending0, rx0)
  {
    i := i0;
    while i < i0 + count
      invariant i <= i0 + count
      invariant ReceivedUpTo(regs, rx, fw, i, pending0, rx0)
    {
      OffsetMonotone(i + 1, i0 + count, fw);
      PullFrame(regs, rx, fw, i, pending0, rx0);
      i := i + 1;
    }
  }

  /** One frame of a receive burst: frame i is read from DR and stored. */
  method PullFrame(regs: SpiRegs, rx: array<Byte>, fw: FrameWidth, i: nat,
                   ghost pending0: seq<Word>, ghost rx0: seq<Byte>)
    requires fw.Offset(i + 1) <= rx.Length == |rx0| && i < |pending0| && regs.Active()
    requires ReceivedUpTo(regs, rx, fw, i, pending0, rx0)
    modifies regs`drPending, rx
    ensures ReceivedUpTo(regs, rx, fw, i + 1, pending0, rx0)
  {
    var x := regs.ReadDr();
    ghost var before := rx[..];
    StoreFrame(rx, i, x, fw);
    ReceiveStep(pending0, rx0, before, rx[..], i, fw);
  }

  /**
    One pass of the receive loop, poll number polls: with RXFLR entries waiting,
    the burst cut from them is read from DR and stored as whole frames from
    frame i on, and what is still owed drops the way Owed says.
   */
  method ReceivePoll(regs: SpiRegs, rx: array<Byte>, len: nat, fw: FrameWidth, rxLevels: seq<FifoLevel>,
                     polls: nat, i: nat, rxLen: nat, ghost pending0: seq<Word>, ghost rx0: seq<Byte>)
    returns (next: nat, left: nat)
    requires len <= rx.Length == |rx0| && fw.Count(len) <= |pending0| && regs.Active()
    requires polls < |rxLevels|
    requires fw.Offset(i) + rxLen == len && rxLen == Owed(Receiving, rxLevels[..polls], len, fw)
    requires ReceivedUpTo(regs, rx, fw, i, pending0, rx0)
    requires ReceiveProgresses(rxLevels, len, fw) ==> polls <= i
    modifies regs`drPending, rx
    ensures fw.Offset(next) + left == len && left == Owed(Receiving, rxLevels[..polls + 1], len, fw)
    ensures ReceivedUpTo(regs, rx, fw, next, pending0, rx0)
    ensures ReceiveProgresses(rxLevels, len, fw) && rxLen != 0 ==> polls + 1 <= next
  {
    var waiting := rxLevels[polls];
    if ReceiveProgresses(rxLevels, len, fw) && rxLen != 0 {
      BurstMovesAFrame(i, rxLen, len, waiting, fw);
    }
    var fifoLen := Burst(waiting, rxLen, fw);
    BurstAdvance(i, fifoLen, rxLen, len, fw);
    OwedAfterPoll(Receiving, rxLevels, polls, len, fw, rxLen, waiting, fifoLen);
    FramesWithin(i + fw.Count(fifoLen), len, fw);
    next := PullFrames(regs, rx, fw, i, fw.Count(fifoLen), pending0, rx0);
    left := rxLen - fifoLen;
  }

  /**
    The receive loop, while (rx_len): each poll of RXFLR gives one burst of
    whole frames, read from DR and stored in order. Returns how many frames were
    received and how many polls were used.
   */
  method Receive(regs: SpiRegs, rx: array<Byte>, len: nat, fw: FrameWidth, rxLevels: seq<FifoLevel>)
    returns (received: nat, polls: nat)
    requires len <= rx.Length && regs.Active()
    requires fw.Count(len) <= |regs.drPending|
    modifies regs`drPending, rx
    ensures fw.Offset(received) <= len && received <= |old(regs.drPending)| && polls <= |rxLevels|
    ensures regs.drPending == old(regs.drPending)[received..]
    ensures rx[..] == Deframe(old(regs.drPending)[..received], fw) + old(rx[..])[fw.Offset(received)..]
    ensures fw.Offset(received) < len ==> polls == |rxLevels|
    ensures fw.Spare(len) != 0 ==> fw.Offset(received) < len
    ensures ReceiveProgresses(rxLevels, len, fw) ==> fw.Offset(received) == len
    ensures len - fw.Offset(received) == Owed(Receiving, rxLevels[..polls], len, fw)
    ensures polls > 0 ==> Owed(Receiving, rxLevels[..polls - 1], len, fw) > 0
    ensures fw.Offset(received) == len <==> Owed(Receiving, rxLevels, len, fw) == 0
  {
    var rxLen := len;
    var i: nat := 0;
    polls := 0;
    while rxLen != 0 && polls < |rxLevels|
      invariant fw.Offset(i) + rxLen == len
      invariant polls <= |rxLevels|
      invariant ReceivedUpTo(regs, rx, fw, i, old(regs.drPending), old(rx[..]))
      invariant ReceiveProgresses(rxLevels, len, fw) ==> polls <= i
      invariant rxLen == Owed(Receiving, rxLevels[..polls], len, fw)
      invariant polls > 0 ==> Owed(Receiving, rxLevels[..polls - 1], len, fw) > 0
      decreases |rxLevels| - polls
    {
      i, rxLen := ReceivePoll(regs, rx, len, fw, rxLevels, polls, i, rxLen, old(regs.drPending), old(rx[..]));
      polls := polls + 1;
    }
    received := i;
    FramesWithin(i, len, fw);
    PollsExhausted(Receiving, rxLevels, polls, i, rxLen, len, fw, ReceiveProgresses(rxLevels, len, fw));
  }

  /** One stored frame extends the received prefix of the buffer by one frame. */
  lemma ReceiveStep(pending: seq<Word>, rx0: seq<Byte>, before: seq<Byte>, after: seq<Byte>, i: nat, fw: FrameWidth)
    requires i < |pending| && fw.Offset(i + 1) <= |rx0|
    requires before == Deframe(pending[..i], fw) + rx0[fw.Offset(i)..]
    requires after == before[..fw.Offset(i)] + StoredBytes(pending[i], fw) + before[fw.Offset(i + 1)..]
    ensures after == Deframe(pending[..i + 1], fw) + rx0[fw.Offset(i + 1)..]
  {
    var d := Deframe(pending[..i], fw);
    assert |d| == fw.Offset(i);
    assert before[..fw.Offset(i)] == d;
    assert before[fw.Offset(i + 1)..] == rx0[fw.Offset(i + 1)..];
    assert pending[..i + 1] == pending[..i] + [pending[i]];
    DeframeSnoc(pending[..i], pending[i], fw);
  }

  /**
    The set-up half of spi_send_receive_data_standard: TMOD is set to
    transmit-and-receive, the frame width is read back from CTRLR0, CTRLR1 gets
    the frame count, the peripheral is enabled and the slave selected.
   */
  method Configure(regs: SpiRegs, bus: nat, chipSelect: nat, len: nat) returns (fw: FrameWidth)
    requires ValidBus(bus) && chipSelect < 32
    modifies regs`ctrlr0, regs`ctrlr1, regs`ssienr, regs`ser
    ensures fw == EngineWidth(old(regs.ctrlr0), bus)
    ensures SetUpFor(old(regs.ctrlr0), regs.ctrlr0, regs.ctrlr1, bus, len)
    ensures regs.ssienr == 1 && regs.ser == SelectMask(chipSelect)
  {
    var ok := SetTmod(regs, bus, TmodTransRecv);
    assert ok;
    TmodKeepsBitLength(old(regs.ctrlr0), bus, TmodTransRecv);
    fw := FrameSize(BitLength(regs.ctrlr0, bus));
    regs.ctrlr1 := FrameCountRegister(len, fw);
    regs.ssienr := 1;
    regs.ser := SelectMask(chipSelect);
  }

  /**
    The data half of spi_send_receive_data_standard, from the transmit loop to
    the final deselect and disable.
   */
  method Exchange(regs: SpiRegs, tx: seq<Byte>, rx: array?<Byte>, len: nat, fw: FrameWidth,
                  txLevels: seq<FifoLevel>, rxLevels: seq<FifoLevel>)
    returns (outcome: Outcome)
    requires regs.Active() && len <= |tx|
    requires rx != null ==> len <= rx.Length && fw.Count(len) <= |regs.drPending|
    modifies regs`drWritten, regs`drPending, regs`ssienr, regs`ser, rx
    ensures outcome != AssertFailed
    ensures outcome == Done <==>
              Owed(Sending, txLevels, len, fw) == 0 && (rx != null ==> Owed(Receiving, rxLevels, len, fw) == 0)
    ensures rx != null ==> rx[len..] == old(rx[len..])
    ensures rx == null ==> regs.drPending == old(regs.drPending)
    ensures fw.Spare(len) != 0 ==> outcome == StillPolling
    ensures TransmitProgresses(txLevels, len, fw) && (rx != null ==> ReceiveProgresses(rxLevels, len, fw))
            ==> outcome == Done
    ensures outcome == StillPolling ==>
              && regs.ssienr == old(regs.ssienr) && regs.ser == old(regs.ser)
              && regs.drWritten <= old(regs.drWritten) + Frames(tx, fw, fw.Count(len))
    ensures outcome == Done ==>
              && fw.Spare(len) == 0
              && regs.ssienr == 0 && regs.ser == 0
              && regs.drWritten == old(regs.drWritten) + Frames(tx, fw, fw.Count(len))
    ensures outcome == Done && rx != null ==>
              && regs.drPending == old(regs.drPending)[fw.Count(len)..]
              && rx[..len] == Deframe(old(regs.drPending)[..fw.Count(len)], fw)
  {
    var sent, txPolls := Transmit(regs, tx, len, fw, txLevels);
    FramesWithin(sent, len, fw);
    FramesPrefix(tx, fw, sent, fw.Count(len));
    if fw.Offset(sent) < len {
      return StillPolling;
    }
    // The wait for (sr & 0x05) == 0x04, bus idle and transmit FIFO empty, is
    // taken to return here.
    if rx != null {
      var received, rxPolls := Receive(regs, rx, len, fw, rxLevels);
      FramesWithin(received, len, fw);
      TailKept(rx[..], Deframe(old(regs.drPending)[..received], fw), old(rx[..]), len);
      if fw.Offset(received) < len {
        return StillPolling;
      }
    }
    regs.ser := 0;
    regs.ssienr := 0;
    outcome := Done;
  }

  /** The bytes of a buffer past len survive a write of a prefix no longer than len. */
  lemma TailKept(after: seq<Byte>, front: seq<Byte>, before: seq<Byte>, len: nat)
    requires |front| <= len <= |before| && after == front + before[|front|..]
    ensures after[len..] == before[len..]
    ensures |front| == len ==> after[..len] == front
  {
  }

  /**
    spi_send_receive_data_standard: check the bus and the length, then set up,
    push len bytes as whole frames, wait for the bus to go idle, pull the
    replies into rx when rx is present, and finally deselect and disable.
   */
  method SendReceiveDataStandard(regs: SpiRegs, bus: nat, chipSelect: nat, tx: seq<Byte>, rx: array?<Byte>,
                                 len: nat, txLevels: seq<FifoLevel>, rxLevels: seq<FifoLevel>)
    returns (outcome: Outcome)
    requires chipSelect < 32
    requires len <= |tx|
    requires rx != null ==> len <= rx.Length && EnoughReplies(regs, bus, len)
    modifies regs, rx
    ensures outcome == AssertFailed <==> !(ValidBus(bus) && len > 0)
    ensures outcome == AssertFailed ==> unchanged(regs) && (rx != null ==> unchanged(rx))
    ensures rx != null ==> rx[len..] == old(rx[len..])
    ensures rx == null ==> regs.drPending == old(regs.drPending)
    ensures ValidBus(bus) && outcome != AssertFailed ==>
      var fw := EngineWidth(old(regs.ctrlr0), bus);
      && SetUpFor(old(regs.ctrlr0), regs.ctrlr0, regs.ctrlr1, bus, len)
      && (outcome == Done <==>
            Owed(Sending, txLevels, len, fw) == 0 && (rx != null ==> Owed(Receiving, rxLevels, len, fw) == 0))
      && (fw.Spare(len) != 0 ==> outcome == StillPolling)
      && (TransmitProgresses(txLevels, len, fw) && (rx != null ==> ReceiveProgresses(rxLevels, len, fw))
          ==> outcome == Done)
      && (outcome == StillPolling ==>
            && regs.ssienr == 1 && regs.ser == SelectMask(chipSelect)
            && regs.drWritten <= old(regs.drWritten) + Frames(tx, fw, fw.Count(len)))
      && (outcome == Done ==>
            && fw.Spare(len) == 0
            && regs.ssienr == 0 && regs.ser == 0
            && regs.drWritten == old(regs.drWritten) + Frames(tx, fw, fw.Count(len)))
      && (outcome == Done && rx != null ==>
            && regs.drPending == old(regs.drPending)[fw.Count(len)..]
            && rx[..len] == Deframe(old(regs.drPending)[..fw.Count(len)], fw))
  {
    if !(bus < SpiDeviceMax && bus != 2) || len == 0 {
      return AssertFailed;
    }
    var fw := Configure(regs, bus, chipSelect, len);
    outcome := Exchange(regs, tx, rx, len, fw, txLevels, rxLevels);
  }

  /**
    Loopback: when the slave echoes every frame (MISO wired to MOSI), a
    completed transfer leaves rx holding exactly the bytes of tx.
   */
  lemma LoopbackTransfer(tx: seq<Byte>, rxAfter: seq<Byte>, replies: seq<Word>, len: nat, fw: FrameWidth)
    requires len <= |tx| && fw.Spare(len) == 0 && fw.Count(len) <= |replies| && len <= |rxAfter|
    requires replies[..fw.Count(len)] == Frames(tx, fw, fw.Count(len))
    requires rxAfter[..len] == Deframe(replies[..fw.Count(len)], fw)
    ensures rxAfter[..len] == tx[..len]
  {
    WholeFrames(len, fw);
    Loopback(tx, fw, fw.Count(len));
  }
}
