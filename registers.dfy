/**
  The part of one SPI controller's register block that the transfer engine of
  libraries/SPI/SPI.cpp touches, and the bit-field arithmetic it applies to
  CTRLR0.
 */
module Registers {
  import opened FrameFormat

  /** SPI_DEVICE_MAX: the controller has buses 0 to 3. */
  const SpiDeviceMax: nat := 4

  /** SPI_TMOD_TRANS_RECV, the full-duplex transfer mode of the SDK. */
  const TmodTransRecv: bv32 := 0

  /**
    One register block. DR is a single port: a write enqueues a transmit frame
    and a read dequeues a received frame, so the model keeps the words written
    to it and the words that later reads will return.
   */
  class SpiRegs {
    var ctrlr0: bv32
    /** CTRLR1 only ever holds a frame count, so it is kept as a 32-bit number. */
    var ctrlr1: Word
    var ssienr: bv32
    var ser: bv32
    /** Every word written to DR, oldest first. */
    var drWritten: seq<Word>
    /** The words the following reads of DR return, in order. */
    var drPending: seq<Word>

    constructor (ctrlr0: bv32, replies: seq<Word>)
      ensures this.ctrlr0 == ctrlr0 && ctrlr1 == 0 && ssienr == 0 && ser == 0
      ensures drWritten == [] && drPending == replies
    {
      this.ctrlr0 := ctrlr0;
      ctrlr1, ssienr, ser := 0, 0, 0;
      drWritten, drPending := [], replies;
    }

    /** The peripheral is enabled and some slave is selected. */
    predicate Active()
      reads this
    {
      ssienr == 1 && ser != 0
    }

    method WriteDr(x: Word)
      requires Active()
      modifies this`drWritten
      ensures drWritten == old(drWritten) + [x]
    {
      drWritten := drWritten + [x];
    }

    method ReadDr() returns (x: Word)
      requires Active() && drPending != []
      modifies this`drPending
      ensures x == old(drPending)[0] && drPending == old(drPending)[1..]
    {
      x := drPending[0];
      drPending := drPending[1..];
    }
  }

  /**
    set_bit(reg, mask, value): the bits of r under mask take the bits of v,
    every other bit of r is kept.
   */
  function SetBits(r: bv32, mask: bv32, v: bv32): (x: bv32)
    ensures (x & !mask) == (r & !mask)
    ensures (x & mask) == (v & mask)
  {
    (r & !mask) | (v & mask)
  }

  /** Position of the two-bit TMOD field in CTRLR0 (spi_set_tmod). */
  function TmodOffset(bus: nat): (off: bv32)
    ensures off == 8 || off == 10
  {
    if bus <= 2 then 8 else 10
  }

  function TmodMask(bus: nat): bv32
  {
    (3 as bv32) << TmodOffset(bus)
  }

  /** Position of the five-bit data-frame-size field in CTRLR0; bus 2 has none. */
  function DfsOffset(bus: nat): bv32
    requires bus != 2
  {
    if bus <= 1 then 16 else 0
  }

  /** The data-frame-size field of CTRLR0, (ctrlr0 >> dfs_offset) & 0x1F. */
  function DfsField(ctrlr0: bv32, bus: nat): bv32
    requires bus != 2
  {
    (ctrlr0 >> DfsOffset(bus)) & 0x1F
  }

  /** The same field as a number: the frame length in bits, minus one. */
  function BitLength(ctrlr0: bv32, bus: nat): (n: nat)
    requires bus != 2
    ensures n < 32
  {
    DfsField(ctrlr0, bus) as nat
  }

  /**
    The TMOD field and the data-frame-size field do not overlap on buses 0, 1
    and 3, so programming the transfer mode leaves the frame width alone.
   */
  lemma TmodKeepsBitLength(ctrlr0: bv32, bus: nat, tmod: bv32)
    requires bus < SpiDeviceMax && bus != 2
    ensures BitLength(SetBits(ctrlr0, TmodMask(bus), tmod << TmodOffset(bus)), bus) == BitLength(ctrlr0, bus)
  {
    var x := SetBits(ctrlr0, TmodMask(bus), tmod << TmodOffset(bus));
    TmodKeepsDfsField(ctrlr0, bus, tmod);
    assert DfsField(x, bus) == DfsField(ctrlr0, bus);
  }

  lemma TmodKeepsDfsField(ctrlr0: bv32, bus: nat, tmod: bv32)
    requires bus < SpiDeviceMax && bus != 2
    ensures DfsField(SetBits(ctrlr0, TmodMask(bus), tmod << TmodOffset(bus)), bus) == DfsField(ctrlr0, bus)
  {
    var v := tmod << TmodOffset(bus);
    if bus <= 1 {
      assert TmodMask(bus) == 0x300 && DfsOffset(bus) == 16;
      assert (((ctrlr0 & !0x300) | (v & 0x300)) >> 16) & 0x1F == (ctrlr0 >> 16) & 0x1F;
    } else {
      assert TmodMask(bus) == 0xC00 && DfsOffset(bus) == 0;
      assert ((ctrlr0 & !0xC00) | (v & 0xC00)) & 0x1F == ctrlr0 & 0x1F;
    }
  }
}
