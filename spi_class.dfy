/**
  The SPIClass layer of libraries/SPI/SPI.cpp: the transaction settings it keeps,
  and the two single-value transfers it builds on the transfer engine.
 */
module SpiFacade {
  import opened FrameFormat
  import opened Registers
  import opened Engine

  type U16 = v: int | 0 <= v < 0x1_0000

  /** Arduino's BitOrder. */
  datatype BitOrder = LsbFirst | MsbFirst

  /** SPISettings: clock rate, bit order and data mode. */
  datatype SpiSettings = SpiSettings(clock: Word, order: BitOrder, mode: Byte)

  /**
    transfer16's union: the two bytes of a 16-bit value in memory, least
    significant first.
   */
  function Split16(v: U16): (bs: seq<Byte>)
    ensures |bs| == 2
  {
    [v % 0x100, v / 0x100]
  }

  /** The 16-bit value whose memory bytes are bs[0], bs[1]. */
  function Join16(bs: seq<Byte>): (v: U16)
    requires |bs| == 2
  {
    bs[0] + 0x100 * (bs[1] as int)
  }

  /** Split16 and Join16 are the two readings of the same union, and are inverse. */
  lemma SplitJoin(v: U16, bs: seq<Byte>)
    requires |bs| == 2
    ensures Join16(Split16(v)) == v
    ensures Split16(Join16(bs)) == bs
    ensures Split16(v) == LittleEndianBytes(v, 2) && Join16(bs) == LittleEndian(bs)
  {
    assert LittleEndianBytes(v / 0x100, 1) == [v / 0x100 % 0x100];
    assert LittleEndian(bs[1..]) == bs[1] + 0x100 * LittleEndian(bs[1..][1..]);
    assert Pow256(2) == 0x1_0000;
    ValueOfBytes(v, 2);
    BytesOfValue(bs);
  }

  /** A 16-bit frame read back through the union keeps the low 16 bits of the DR word. */
  lemma ShortReply(x: Word)
    ensures Join16(StoredBytes(x, Short)) == x % 0x1_0000
  {
    StoredBytesAreLittleEndian(x, Short);
    SplitJoin(0, StoredBytes(x, Short));
  }

  /** Two byte frames read back through the union: each DR word keeps its low byte. */
  lemma CharReplies(p: seq<Word>)
    requires |p| == 2
    ensures Deframe(p, Char) == [p[0] % 0x100, p[1] % 0x100]
  {
    assert p[..1] == [p[0]];
    assert Deframe(p[..1], Char) == [p[0] % 0x100];
  }

  /** The frames the engine sends for a 16-bit value. */
  lemma SplitFrames(v: U16)
    ensures Frames(Split16(v), Char, 2) == Split16(v)
    ensures Frames(Split16(v), Short, 1) == [v]
  {
    assert Frames(Split16(v), Char, 1) == [v % 0x100];
  }

  class SpiClass {
    /** _spi_num: the controller; regs is its register block spi[_spi_num]. */
    const spiNum: Byte
    /** _spi_cs: the chip-select line handed to the engine. */
    const spiCs: Byte
    const regs: SpiRegs
    /** _settings. */
    var settings: SpiSettings

    /** The object after begin has stored the pins, with its initial settings. */
    constructor (spiNum: Byte, spiCs: Byte, regs: SpiRegs, settings: SpiSettings)
      ensures this.spiNum == spiNum && this.spiCs == spiCs && this.regs == regs
      ensures this.settings == settings
    {
      this.spiNum := spiNum;
      this.spiCs := spiCs;
      this.regs := regs;
      this.settings := settings;
    }

    /** beginTransaction: the settings are replaced wholesale. */
    method BeginTransaction(s: SpiSettings)
      modifies this`settings
      ensures settings == s
    {
      settings := s;
    }

    /** setBitOrder: only the bit order changes. */
    method SetBitOrder(order: BitOrder)
      modifies this`settings
      ensures settings == old(settings).(order := order)
    {
      settings := settings.(order := order);
    }

    /** setDataMode: only the data mode changes. */
    method SetDataMode(mode: Byte)
      modifies this`settings
      ensures settings == old(settings).(mode := mode)
    {
      settings := settings.(mode := mode);
    }

    /** setClockDivider: only the clock changes; it takes the 8-bit argument as is. */
    method SetClockDivider(clock: Byte)
      modifies this`settings
      ensures settings == old(settings).(clock := clock)
    {
      settings := settings.(clock := clock);
    }

    /**
      transfer(uint8_t): one engine call of length 1, sending data and returning
      the byte the engine stored. Only byte-wide frames can complete: with wider
      frames the single byte is never sent.
     */
    method Transfer(data: Byte, txLevels: seq<FifoLevel>, rxLevels: seq<FifoLevel>)
      returns (outcome: Outcome, ret: Byte)
      requires spiCs < 32 && EnoughReplies(regs, spiNum, 1)
      modifies regs
      ensures outcome == AssertFailed <==> !ValidBus(spiNum)
      ensures outcome == AssertFailed ==> unchanged(regs)
      ensures ValidBus(spiNum) ==> SetUpFor(old(regs.ctrlr0), regs.ctrlr0, regs.ctrlr1, spiNum, 1)
      ensures outcome == Done ==> regs.ssienr == 0 && regs.ser == 0
      ensures outcome == StillPolling ==> regs.ssienr == 1 && regs.ser == SelectMask(spiCs)
      ensures ValidBus(spiNum) ==>
        var fw := EngineWidth(old(regs.ctrlr0), spiNum);
        && (outcome == Done <==> Owed(Sending, txLevels, 1, fw) == 0 && Owed(Receiving, rxLevels, 1, fw) == 0)
      ensures ValidBus(spiNum) && EngineWidth(old(regs.ctrlr0), spiNum) != Char ==> outcome == StillPolling
      ensures ValidBus(spiNum) && EngineWidth(old(regs.ctrlr0), spiNum) == Char
              && TransmitProgresses(txLevels, 1, Char) && ReceiveProgresses(rxLevels, 1, Char)
              ==> outcome == Done
      ensures outcome == Done ==>
                && regs.drWritten == old(regs.drWritten) + [data]
                && regs.drPending == old(regs.drPending)[1..]
                && ret == old(regs.drPending)[0] % 0x100
    {
      var rx := new Byte[1](_ => 0);
      outcome := SendReceiveDataStandard(regs, spiNum, spiCs, [data], rx, 1, txLevels, rxLevels);
      ret := rx[0];
      if outcome == Done {
        assert Frames([data], Char, 1) == [data];
        assert old(regs.drPending)[..1] == [old(regs.drPending)[0]];
      }
    }

    /**
      transfer16: the value goes out as its two memory bytes, low byte first, and
      the two bytes received are read back as one 16-bit value.
     */
    method Transfer16(data: U16, txLevels: seq<FifoLevel>, rxLevels: seq<FifoLevel>)
      returns (outcome: Outcome, ret: U16)
      requires spiCs < 32 && EnoughReplies(regs, spiNum, 2)
      modifies regs
      ensures outcome == AssertFailed <==> !ValidBus(spiNum)
      ensures outcome == AssertFailed ==> unchanged(regs)
      ensures ValidBus(spiNum) ==> SetUpFor(old(regs.ctrlr0), regs.ctrlr0, regs.ctrlr1, spiNum, 2)
      ensures outcome == Done ==> regs.ssienr == 0 && regs.ser == 0
      ensures outcome == StillPolling ==> regs.ssienr == 1 && regs.ser == SelectMask(spiCs)
      ensures ValidBus(spiNum) ==>
        var fw := EngineWidth(old(regs.ctrlr0), spiNum);
        && (outcome == Done <==> Owed(Sending, txLevels, 2, fw) == 0 && Owed(Receiving, rxLevels, 2, fw) == 0)
        && (fw == Int ==> outcome == StillPolling)
        && (fw == Short && (forall k :: 0 <= k < |rxLevels| ==> rxLevels[k] <= 1) ==> outcome == StillPolling)
        && (fw != Int && TransmitProgresses(txLevels, 2, fw) && ReceiveProgresses(rxLevels, 2, fw)
            ==> outcome == Done)
        && (outcome == Done && fw == Char ==>
              && regs.drWritten == old(regs.drWritten) + Split16(data)
              && regs.drPending == old(regs.drPending)[2..]
              && ret == Join16([old(regs.drPending)[0] % 0x100, old(regs.drPending)[1] % 0x100]))
        && (outcome == Done && fw == Short ==>
              && regs.drWritten == old(regs.drWritten) + [data]
              && regs.drPending == old(regs.drPending)[1..]
              && ret == old(regs.drPending)[0] % 0x1_0000)
    {
      var rx := new Byte[2](_ => 0);
      outcome := SendReceiveDataStandard(regs, spiNum, spiCs, Split16(data), rx, 2, txLevels, rxLevels);
      ret := Join16(rx[..]);
      if ValidBus(spiNum) {
        var fw := EngineWidth(old(regs.ctrlr0), spiNum);
        Transfer16Polling(fw, outcome, txLevels, rxLevels);
        if outcome == Done {
          Transfer16Result(data, fw, old(regs.drWritten), regs.drWritten, old(regs.drPending), regs.drPending, rx[..], ret);
        }
      }
    }
  }

  /**
    Whether transfer16 completes on frames of width fw: never on 32-bit frames,
    never on 16-bit frames while RXFLR reports at most the one reply owed, and
    always on 8- and 16-bit frames under the progress conditions.
   */
  lemma Transfer16Polling(fw: FrameWidth, outcome: Outcome, txLevels: seq<FifoLevel>, rxLevels: seq<FifoLevel>)
    requires outcome != AssertFailed
    requires outcome == Done <==> Owed(Sending, txLevels, 2, fw) == 0 && Owed(Receiving, rxLevels, 2, fw) == 0
    requires fw.Spare(2) != 0 ==> outcome == StillPolling
    requires TransmitProgresses(txLevels, 2, fw) && ReceiveProgresses(rxLevels, 2, fw) ==> outcome == Done
    ensures fw == Int ==> outcome == StillPolling
    ensures fw == Short && (forall k :: 0 <= k < |rxLevels| ==> rxLevels[k] <= 1) ==> outcome == StillPolling
    ensures fw != Int && TransmitProgresses(txLevels, 2, fw) && ReceiveProgresses(rxLevels, 2, fw)
            ==> outcome == Done
  {
    if fw == Short && forall k :: 0 <= k < |rxLevels| ==> rxLevels[k] <= 1 {
      NoRoomNoProgress(Receiving, rxLevels, 2, Short);
    }
  }

  /**
    What a completed transfer16 leaves, from the engine's account of the words
    sent, the replies consumed and the bytes stored in the two-byte buffer.
   */
  lemma Transfer16Result(data: U16, fw: FrameWidth, written0: seq<Word>, written: seq<Word>,
                         pending0: seq<Word>, pending: seq<Word>, stored: seq<Byte>, ret: U16)
    requires |stored| == 2 && ret == Join16(stored) && fw.Count(2) <= |pending0|
    requires written == written0 + Frames(Split16(data), fw, fw.Count(2))
    requires pending == pending0[fw.Count(2)..]
    requires stored[..2] == Deframe(pending0[..fw.Count(2)], fw)
    ensures fw == Char ==>
              && written == written0 + Split16(data)
              && pending == pending0[2..]
              && ret == Join16([pending0[0] % 0x100, pending0[1] % 0x100])
    ensures fw == Short ==>
              && written == written0 + [data]
              && pending == pending0[1..]
              && ret == pending0[0] % 0x1_0000
  {
    SplitFrames(data);
    assert stored[..2] == stored;
    if fw == Char {
      CharReplies(pending0[..2]);
    } else if fw == Short {
      assert pending0[..1] == [pending0[0]];
      ShortReply(pending0[0]);
    }
  }

  /**
    With the slave echoing every byte on byte-wide frames, the value transfer16
    assembles from the replies is the value it sent.
   */
  lemma EchoTransfer16(data: U16)
    ensures Join16([Split16(data)[0] % 0x100, Split16(data)[1] % 0x100]) == data
  {
    SplitJoin(data, Split16(data));
  }
}
