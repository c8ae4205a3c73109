/**
  Frame widths, the little-endian view of byte buffers as FIFO words, and the
  burst arithmetic that the transfer engine of libraries/SPI/SPI.cpp uses to cut a
  byte buffer into FIFO-sized pieces.
 */
module FrameFormat {

  /** Depth of the controller's transmit and receive FIFOs, in entries. */
  const FifoDepth: nat := 32

  type Byte = b: int | 0 <= b < 0x100
  type Word = x: int | 0 <= x < 0x1_0000_0000

  /** A value read from TXFLR or RXFLR: the number of entries in a FIFO. */
  type FifoLevel = n: int | 0 <= n <= FifoDepth

  /** The SDK's spi_transfer_width_t: a frame occupies 1, 2 or 4 bytes of the buffer. */
  datatype FrameWidth = Char | Short | Int {
    function Bytes(): (n: nat)
      ensures n == 1 || n == 2 || n == 4
    {
      match this
      case Char => 1
      case Short => 2
      case Int => 4
    }

    /** Byte offset of frame k in a buffer: k times the width. */
    function Offset(k: nat): nat
    {
      match this
      case Char => k
      case Short => 2 * k
      case Int => 4 * k
    }

    /** The number of whole frames in n bytes. */
    function Count(n: nat): nat
    {
      match this
      case Char => n
      case Short => n / 2
      case Int => n / 4
    }

    /** A DR word cut to the frame width, as the casts (uint16_t)dr and (uint8_t)dr do. */
    function Narrow(x: Word): Word
    {
      match this
      case Char => x % 0x100
      case Short => x % 0x1_0000
      case Int => x
    }

    /** The bytes of n that do not fill a whole frame. */
    function Spare(n: nat): nat
    {
      match this
      case Char => 0
      case Short => n % 2
      case Int => n % 4
    }
  }

  /** Offset, Count and Spare are multiplication, division and remainder by the width. */
  lemma WidthArithmetic(fw: FrameWidth, k: nat, n: nat)
    ensures fw.Offset(k) == k * fw.Bytes()
    ensures fw.Count(n) == n / fw.Bytes() && fw.Spare(n) == n % fw.Bytes()
    ensures fw.Offset(fw.Count(n)) + fw.Spare(n) == n
  {
    match fw
    case Char =>
    case Short =>
      assert n == 2 * (n / 2) + n % 2;
    case Int =>
      assert n == 4 * (n / 4) + n % 4;
  }

  /** Later frames start further into the buffer. */
  lemma OffsetMonotone(a: nat, b: nat, fw: FrameWidth)
    requires a <= b
    ensures fw.Offset(a) <= fw.Offset(b)
  {
  }

  /**
    spi_get_frame_size. The argument is the controller's data-frame-size field,
    which holds the number of bits per frame minus one. The width chosen is the
    narrowest of 1, 2 and 4 bytes that holds such a frame.
   */
  function FrameSize(dataBitLength: nat): (fw: FrameWidth)
    ensures dataBitLength < 32 ==> dataBitLength + 1 <= 8 * fw.Bytes()
    ensures fw != Char ==> 8 * (fw.Bytes() / 2) < dataBitLength + 1
    ensures dataBitLength >= 16 ==> fw == Int
  {
    if dataBitLength < 8 then Char
    else if dataBitLength < 16 then Short
    else Int
  }

  /** A longer configured frame never gets a narrower buffer width. */
  lemma FrameSizeMonotone(a: nat, b: nat)
    requires a <= b
    ensures FrameSize(a).Bytes() <= FrameSize(b).Bytes()
  {
  }

  /**
    The size of one FIFO burst, in bytes: the free space (or fill level) clamped
    to the bytes remaining and then rounded down to whole frames, as the switch
    on the frame width does in both loops of the engine.
   */
  function Burst(available: nat, remaining: nat, fw: FrameWidth): (n: nat)
    ensures n <= available && n <= remaining
    ensures fw.Spare(n) == 0
    ensures fw.Count(n) <= available
    ensures available < n + fw.Bytes() || remaining < n + fw.Bytes()
  {
    var m := if available < remaining then available else remaining;
    match fw
    case Int =>
      assert m / 4 * 4 % 4 == 0 && m / 4 * 4 / 4 == m / 4 && m < m / 4 * 4 + 4;
      m / 4 * 4
    case Short =>
      assert m / 2 * 2 % 2 == 0 && m / 2 * 2 / 2 == m / 2 && m < m / 2 * 2 + 2;
      m / 2 * 2
    case Char => m
  }

  /** Fewer bytes left than one frame: no burst can ever move them. */
  lemma RemainderNeverMoves(available: nat, remaining: nat, fw: FrameWidth)
    requires remaining < fw.Bytes()
    ensures Burst(available, remaining, fw) == 0
  {
  }

  /**
    A burst moves at least one frame exactly when a whole frame is both
    available and still owed.
   */
  lemma BurstProgress(available: nat, remaining: nat, fw: FrameWidth)
    ensures Burst(available, remaining, fw) >= fw.Bytes() <==>
            (available >= fw.Bytes() && remaining >= fw.Bytes())
  {
  }

  /**
    RXFLR counts frames while the receive loop compares it with a byte count: with
    frames wider than a byte, a single frame waiting in the FIFO is never
    collected, however often the level is polled.
   */
  lemma LoneFrameNeverCollected(fw: FrameWidth, remaining: nat)
    requires fw != Char && remaining >= fw.Bytes()
    ensures Burst(1, remaining, fw) == 0
  {
  }

  function Pow256(n: nat): (p: nat)
    ensures p > 0
  {
    if n == 0 then 1 else 0x100 * Pow256(n - 1)
  }

  /** The number whose little-endian byte representation is bs. */
  function LittleEndian(bs: seq<Byte>): (v: nat)
    ensures v < Pow256(|bs|)
  {
    if bs == [] then 0 else bs[0] + 0x100 * LittleEndian(bs[1..])
  }

  /** The n low-order bytes of v, least significant first. */
  function LittleEndianBytes(v: nat, n: nat): (bs: seq<Byte>)
    ensures |bs| == n
  {
    if n == 0 then [] else [v % 0x100] + LittleEndianBytes(v / 0x100, n - 1)
  }

  lemma {:induction false} BytesOfValue(bs: seq<Byte>)
    ensures LittleEndianBytes(LittleEndian(bs), |bs|) == bs
  {
    if bs != [] {
      BytesOfValue(bs[1..]);
      LowByte(bs[0], LittleEndian(bs[1..]));
    }
  }

  lemma LowByte(b: Byte, r: nat)
    ensures (b + 0x100 * r) % 0x100 == b && (b + 0x100 * r) / 0x100 == r
  {
  }

  lemma {:induction false} ValueOfBytes(v: nat, n: nat)
    requires v < Pow256(n)
    ensures LittleEndian(LittleEndianBytes(v, n)) == v
  {
    if n > 0 {
      ValueOfBytes(v / 0x100, n - 1);
      assert LittleEndianBytes(v, n)[1..] == LittleEndianBytes(v / 0x100, n - 1);
    }
  }

  /**
    Frame k of a byte buffer viewed as an array of 1-, 2- or 4-byte units, the
    way ((uint16_t *)buf)[k] and ((uint32_t *)buf)[k] read it on a little-endian
    core; the unit is widened to a DR word.
   */
  function FrameAt(bs: seq<Byte>, k: nat, fw: FrameWidth): (x: Word)
    requires fw.Offset(k + 1) <= |bs|
  {
    var o := fw.Offset(k);
    match fw
    case Char => bs[o]
    case Short => bs[o] + 0x100 * (bs[o + 1] as int)
    case Int => bs[o] + 0x100 * (bs[o + 1] as int) + 0x1_0000 * (bs[o + 2] as int) + 0x100_0000 * (bs[o + 3] as int)
  }

  /** A frame is the little-endian value of its bytes. */
  lemma FrameAtIsLittleEndian(bs: seq<Byte>, k: nat, fw: FrameWidth)
    requires fw.Offset(k + 1) <= |bs|
    ensures FrameAt(bs, k, fw) == LittleEndian(bs[fw.Offset(k) .. fw.Offset(k) + fw.Bytes()])
  {
    var o := fw.Offset(k);
    match fw
    case Char =>
      assert bs[o .. o + 1] == [bs[o]];
      OneByteValue(bs[o]);
    case Short =>
      assert bs[o .. o + 2] == [bs[o], bs[o + 1]];
      TwoByteValue(bs[o], bs[o + 1]);
    case Int =>
      assert bs[o .. o + 4] == [bs[o], bs[o + 1], bs[o + 2], bs[o + 3]];
      FourByteValue(bs[o], bs[o + 1], bs[o + 2], bs[o + 3]);
  }

  lemma OneByteValue(b0: Byte)
    ensures LittleEndian([b0]) == b0
  {
    assert [b0][1..] == [];
  }

  lemma TwoByteValue(b0: Byte, b1: Byte)
    ensures LittleEndian([b0, b1]) == b0 + 0x100 * (b1 as int)
  {
    assert [b0, b1][1..] == [b1];
    OneByteValue(b1);
  }

  lemma FourByteValue(b0: Byte, b1: Byte, b2: Byte, b3: Byte)
    ensures LittleEndian([b0, b1, b2, b3])
         == b0 + 0x100 * (b1 as int) + 0x1_0000 * (b2 as int) + 0x100_0000 * (b3 as int)
  {
    assert [b0, b1, b2, b3][1..] == [b1, b2, b3];
    assert [b1, b2, b3][1..] == [b2, b3];
    TwoByteValue(b2, b3);
  }

  /** The first n frames of bs, in buffer order. */
  function Frames(bs: seq<Byte>, fw: FrameWidth, n: nat): (ws: seq<Word>)
    requires fw.Offset(n) <= |bs|
    ensures |ws| == n
  {
    if n == 0 then [] else Frames(bs, fw, n - 1) + [FrameAt(bs, n - 1, fw)]
  }

  /**
    The bytes the receive loop stores for one word read from DR: the word is cut
    to the frame width, as the casts (uint16_t)dr and (uint8_t)dr do, and stored
    least significant byte first.
   */
  function StoredBytes(x: Word, fw: FrameWidth): (bs: seq<Byte>)
    ensures |bs| == fw.Bytes()
  {
    match fw
    case Char => [x % 0x100]
    case Short => [x % 0x100, x / 0x100 % 0x100]
    case Int => [x % 0x100, x / 0x100 % 0x100, x / 0x100 / 0x100 % 0x100, x / 0x100 / 0x100 / 0x100 % 0x100]
  }

  /** The stored bytes are the little-endian representation of the narrowed word. */
  lemma StoredBytesAreLittleEndian(x: Word, fw: FrameWidth)
    ensures StoredBytes(x, fw) == LittleEndianBytes(fw.Narrow(x), fw.Bytes())
    ensures LittleEndian(StoredBytes(x, fw)) == fw.Narrow(x)
  {
    match fw
    case Char => CharIsLittleEndian(x);
    case Short => ShortIsLittleEndian(x);
    case Int => IntIsLittleEndian(x);
  }

  lemma CharIsLittleEndian(x: Word)
    ensures StoredBytes(x, Char) == LittleEndianBytes(x % 0x100, 1)
    ensures LittleEndian(StoredBytes(x, Char)) == x % 0x100
  {
    assert LittleEndianBytes(x % 0x100, 1) == [x % 0x100 % 0x100];
    OneByteValue(x % 0x100);
  }

  lemma ShortIsLittleEndian(x: Word)
    ensures StoredBytes(x, Short) == LittleEndianBytes(x % 0x1_0000, 2)
    ensures LittleEndian(StoredBytes(x, Short)) == x % 0x1_0000
  {
    TwoBytes(x % 0x1_0000);
    LowBytesOfShort(x);
    assert Pow256(2) == 0x1_0000;
    ValueOfBytes(x % 0x1_0000, 2);
  }

  lemma IntIsLittleEndian(x: Word)
    ensures StoredBytes(x, Int) == LittleEndianBytes(x, 4)
    ensures LittleEndian(StoredBytes(x, Int)) == x
  {
    FourBytes(x);
    assert Pow256(4) == 0x1_0000_0000;
    ValueOfBytes(x, 4);
  }

  lemma TwoBytes(v: nat)
    ensures LittleEndianBytes(v, 2) == [v % 0x100, v / 0x100 % 0x100]
  {
    assert LittleEndianBytes(v / 0x100, 1) == [v / 0x100 % 0x100];
  }

  lemma FourBytes(v: nat)
    ensures LittleEndianBytes(v, 4)
         == [v % 0x100, v / 0x100 % 0x100, v / 0x100 / 0x100 % 0x100, v / 0x100 / 0x100 / 0x100 % 0x100]
  {
    TwoBytes(v / 0x100 / 0x100);
    assert LittleEndianBytes(v, 4) == [v % 0x100] + LittleEndianBytes(v / 0x100, 3);
    assert LittleEndianBytes(v / 0x100, 3) == [v / 0x100 % 0x100] + LittleEndianBytes(v / 0x100 / 0x100, 2);
  }

  lemma LowBytesOfShort(x: nat)
    ensures x % 0x1_0000 % 0x100 == x % 0x100
    ensures x % 0x1_0000 / 0x100 % 0x100 == x / 0x100 % 0x100
  {
    var q, r := x / 0x1_0000, x % 0x1_0000;
    var h, l := r / 0x100, r % 0x100;
    assert x == 0x1_0000 * q + 0x100 * h + l;
    assert x == 0x100 * (0x100 * q + h) + l;
    assert x / 0x100 == 0x100 * q + h;
  }

  /** The bytes stored for a sequence of received words, in order. */
  function Deframe(ws: seq<Word>, fw: FrameWidth): (bs: seq<Byte>)
    ensures |bs| == fw.Offset(|ws|)
  {
    if ws == [] then [] else Deframe(ws[..|ws| - 1], fw) + StoredBytes(ws[|ws| - 1], fw)
  }

  /** Storing a frame that was read from a buffer gives back the same bytes. */
  lemma FrameRoundTrip(bs: seq<Byte>, k: nat, fw: FrameWidth)
    requires fw.Offset(k + 1) <= |bs|
    ensures StoredBytes(FrameAt(bs, k, fw), fw) == bs[fw.Offset(k) .. fw.Offset(k + 1)]
  {
    var o := fw.Offset(k);
    match fw
    case Char =>
      assert bs[o .. o + 1] == [bs[o]];
    case Short =>
      ShortRoundTrip(bs[o], bs[o + 1]);
      assert bs[o .. o + 2] == [bs[o], bs[o + 1]];
    case Int =>
      IntRoundTrip(bs[o], bs[o + 1], bs[o + 2], bs[o + 3]);
      assert bs[o .. o + 4] == [bs[o], bs[o + 1], bs[o + 2], bs[o + 3]];
  }

  lemma ShortRoundTrip(b0: Byte, b1: Byte)
    ensures StoredBytes(b0 + 0x100 * (b1 as int), Short) == [b0, b1]
  {
    var x := b0 + 0x100 * (b1 as int);
    assert x / 0x100 == b1;
  }

  lemma IntRoundTrip(b0: Byte, b1: Byte, b2: Byte, b3: Byte)
    ensures StoredBytes(b0 + 0x100 * (b1 as int) + 0x1_0000 * (b2 as int) + 0x100_0000 * (b3 as int), Int)
         == [b0, b1, b2, b3]
  {
    var x := b0 + 0x100 * (b1 as int) + 0x1_0000 * (b2 as int) + 0x100_0000 * (b3 as int);
    var y := b1 + 0x100 * (b2 as int) + 0x1_0000 * (b3 as int);
    var z := b2 + 0x100 * (b3 as int);
    assert x == b0 + 0x100 * y && x / 0x100 == y;
    assert y == b1 + 0x100 * z && y / 0x100 == z;
    assert z / 0x100 == b3;
  }

  lemma DeframeSnoc(ws: seq<Word>, x: Word, fw: FrameWidth)
    ensures Deframe(ws + [x], fw) == Deframe(ws, fw) + StoredBytes(x, fw)
  {
    assert (ws + [x])[..|ws|] == ws;
  }

  /**
    Loopback: if the words received are the frames that were sent, the bytes
    stored are exactly the bytes that were sent.
   */
  lemma {:induction false} Loopback(bs: seq<Byte>, fw: FrameWidth, n: nat)
    requires fw.Offset(n) <= |bs|
    ensures Deframe(Frames(bs, fw, n), fw) == bs[..fw.Offset(n)]
  {
    if n > 0 {
      Loopback(bs, fw, n - 1);
      LoopbackStep(bs, fw, n);
    }
  }

  /** Sending one more frame stores one more slice of the buffer. */
  lemma LoopbackStep(bs: seq<Byte>, fw: FrameWidth, n: nat)
    requires 0 < n && fw.Offset(n) <= |bs|
    requires Deframe(Frames(bs, fw, n - 1), fw) == bs[..fw.Offset(n - 1)]
    ensures Deframe(Frames(bs, fw, n), fw) == bs[..fw.Offset(n)]
  {
    var ws, x := Frames(bs, fw, n - 1), FrameAt(bs, n - 1, fw);
    var p, q := fw.Offset(n - 1), fw.Offset(n);
    assert Frames(bs, fw, n) == ws + [x];
    FrameRoundTrip(bs, n - 1, fw);
    StoreSlice(ws, x, fw, bs[p..q]);
    SplitPrefix(bs, p, q);
  }

  /** A word that stores as the bytes t extends what is stored by t. */
  lemma StoreSlice(ws: seq<Word>, x: Word, fw: FrameWidth, t: seq<Byte>)
    requires StoredBytes(x, fw) == t
    ensures Deframe(ws + [x], fw) == Deframe(ws, fw) + t
  {
    DeframeSnoc(ws, x, fw);
  }

  lemma SplitPrefix<T>(s: seq<T>, i: nat, j: nat)
    requires i <= j <= |s|
    ensures s[..i] + s[i..j] == s[..j]
  {
  }

  /** The first m frames of a buffer are a prefix of its first n frames. */
  lemma {:induction false} FramesPrefix(bs: seq<Byte>, fw: FrameWidth, m: nat, n: nat)
    requires m <= n && fw.Offset(n) <= |bs|
    ensures fw.Offset(m) <= |bs|
    ensures Frames(bs, fw, m) <= Frames(bs, fw, n)
  {
    if m < n {
      FramesPrefix(bs, fw, m, n - 1);
    }
  }

  // Arithmetic on frame indices. Every width is 1, 2 or 4, so each of these
  // is linear once the width is known.

  /**
    A burst of fifoLen bytes that starts at frame i0, where i0 * w + left ==
    len, ends at frame i0 + fifoLen / w with left - fifoLen bytes still owed.
   */
  lemma BurstAdvance(i0: nat, fifoLen: nat, left: nat, len: nat, fw: FrameWidth)
    requires fw.Offset(i0) + left == len
    requires fifoLen <= left && fw.Spare(fifoLen) == 0
    ensures fw.Offset(i0 + fw.Count(fifoLen)) + (left - fifoLen) == len
  {
    match fw
    case Char =>
    case Short =>
      assert fifoLen % 2 == 0 && 2 * (fifoLen / 2) == fifoLen;
    case Int =>
      assert fifoLen % 4 == 0 && 4 * (fifoLen / 4) == fifoLen;
  }

  /**
    With whole frames only and room for at least one frame, a burst moves at
    least one frame.
   */
  lemma BurstMovesAFrame(i: nat, left: nat, len: nat, available: nat, fw: FrameWidth)
    requires fw.Offset(i) + left == len && fw.Spare(len) == 0
    requires left > 0 && available >= fw.Bytes()
    ensures fw.Count(Burst(available, left, fw)) >= 1
  {
    match fw
    case Char =>
    case Short =>
      UnitsLeft(i, left, len, fw);
      WholeUnits(if available < left then available else left, fw);
    case Int =>
      UnitsLeft(i, left, len, fw);
      WholeUnits(if available < left then available else left, fw);
  }

  /** Whole frames only: anything still owed is at least one frame. */
  lemma UnitsLeft(i: nat, left: nat, len: nat, fw: FrameWidth)
    requires fw.Offset(i) + left == len && fw.Spare(len) == 0 && left > 0
    ensures left >= fw.Bytes()
  {
    match fw
    case Char =>
    case Short =>
      assert len == 2 * (len / 2);
      assert left == 2 * (len / 2 - i);
    case Int =>
      assert len == 4 * (len / 4);
      assert left == 4 * (len / 4 - i);
  }

  /** Rounding a byte count down to whole frames. */
  lemma WholeUnits(m: nat, fw: FrameWidth)
    ensures m >= fw.Bytes() ==> fw.Count(m) >= 1
    ensures fw.Count(fw.Offset(fw.Count(m))) == fw.Count(m)
  {
  }

  /** All frames have gone once at least len / w of them have. */
  lemma NothingOwed(i: nat, left: nat, len: nat, fw: FrameWidth)
    requires fw.Offset(i) + left == len && fw.Spare(len) == 0
    requires i >= fw.Count(len)
    ensures left == 0
  {
    match fw
    case Char =>
    case Short =>
      assert len == 2 * i + left && i >= len / 2 && 2 * (len / 2) == len;
    case Int =>
      assert len == 4 * i + left && i >= len / 4 && 4 * (len / 4) == len;
  }

  lemma ExactFrames(i: nat, len: nat, fw: FrameWidth)
    requires fw.Offset(i) == len
    ensures fw.Spare(len) == 0 && fw.Count(len) == i
  {
    match fw
    case Char =>
    case Short =>
      assert len / 2 == i && len % 2 == 0;
    case Int =>
      assert len / 4 == i && len % 4 == 0;
  }

  lemma FramesWithin(k: nat, len: nat, fw: FrameWidth)
    requires fw.Offset(k) <= len
    ensures k <= fw.Count(len)
    ensures k == fw.Count(len) && fw.Spare(len) == 0 ==> fw.Offset(k) == len
  {
    match fw
    case Char =>
    case Short =>
      assert 2 * k <= len && k <= len / 2 && len == 2 * (len / 2) + len % 2;
    case Int =>
      assert 4 * k <= len && k <= len / 4 && len == 4 * (len / 4) + len % 4;
  }

  /**
    A burst cut from at most as many entries as frames are owed leaves a whole
    frame owed when frames are wider than a byte.
   */
  lemma WideBurstLeavesAFrame(level: nat, left: nat, fw: FrameWidth)
    requires fw != Char && left >= fw.Bytes() && level <= fw.Count(left)
    ensures left - Burst(level, left, fw) >= fw.Bytes()
  {
    match fw
    case Short =>
      assert level <= left / 2 && level <= left;
      assert Burst(level, left, fw) == level / 2 * 2 && level / 2 * 2 <= level;
      if left < 4 {
        assert level <= 1;
      }
    case Int =>
      assert level <= left / 4 && level <= left;
      assert Burst(level, left, fw) == level / 4 * 4 && level / 4 * 4 <= level;
      if left < 8 {
        assert level <= 1;
      }
  }

  lemma WholeFrames(n: nat, fw: FrameWidth)
    ensures fw.Spare(n) == 0 && n > 0 ==> fw.Count(n) >= 1
    ensures fw.Offset(fw.Count(n)) <= n
    ensures fw.Spare(n) == 0 ==> fw.Offset(fw.Count(n)) == n
  {
    match fw
    case Char =>
    case Short =>
      assert n == 2 * (n / 2) + n % 2;
    case Int =>
      assert n == 4 * (n / 4) + n % 4;
  }
}
