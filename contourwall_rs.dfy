/** The stand-alone Rust driver for a single tile
    (lib-rust/contourwall): a 20x20 grid of 16-bit channel values, the
    wiring matrix of LED numbers, and `show`, which encodes the grid into
    one 1201-byte transmission (1200 channel bytes in wiring order and a
    checksum) after pacing the link. Times are microsecond clock readings
    passed in as `now`; sleeps are whole milliseconds. */
module RustWall {
  import opened Common
  import opened Wiring
  import opened Serial

  /** An unsigned 16-bit value (Rust `u16`). */
  type U16 = x: int | 0 <= x < 0x1_0000

  /** `v as u8`: the low byte. */
  function LowByte(v: U16): (b: Byte)
    ensures v < 256 ==> b == v
    ensures (v - b) % 256 == 0
  {
    v % 256
  }

  /** The sleep before a write, in milliseconds: the whole frame time when
      forced, otherwise what is left of it since the last write. */
  function FrameWait(forceFrameTime: bool, frameTime: nat, elapsedMillis: nat): (wait: nat)
    ensures forceFrameTime ==> wait == frameTime
    ensures !forceFrameTime ==> elapsedMillis + wait >= frameTime
    ensures !forceFrameTime && wait > 0 ==> elapsedMillis + wait == frameTime
  {
    if forceFrameTime then frameTime
    else if elapsedMillis < frameTime then frameTime - elapsedMillis
    else 0
  }

  /** Pacing keeps writes at least a frame time apart: the write after the
      sleep comes no sooner than `frameTime` milliseconds after the previous
      one, whether or not the full frame time is forced. */
  lemma PacedGap(forceFrameTime: bool, frameTime: nat, last: nat, now: nat)
    requires last <= now
    ensures now + 1000 * FrameWait(forceFrameTime, frameTime, (now - last) / 1000) >= last + 1000 * frameTime
  {
    var e := (now - last) / 1000;
    assert now - last >= 1000 * e;
  }

  /** Where the Rust encoder puts channel c of pixel (x, y): at three times
      its LED number plus c, which is the frame byte of that channel in
      the wiring order. */
  lemma PixelPlacement(channels: seq<Byte>, x: nat, y: nat, c: nat)
    requires |channels| == FrameSize && x < Side && y < Side && c < 3
    ensures 3 * Led(x, y) + c < FrameSize
    ensures Scatter(channels, 0)[3 * Led(x, y) + c] == channels[ChannelIndex(x, y, c)]
  {
    PhysicalOffsetAt(x, y, c);
    ScatterPlaces(channels, 0);
  }

  class ContourWall {
    const pixels: array3<U16>
    var frameTime: nat
    const txBufferSize: nat
    const serial: Port
    const indexConverter: array2<U16>
    var lastSerialWriteTime: nat

    ghost predicate Valid()
      reads indexConverter
    {
      && pixels.Length0 == Side && pixels.Length1 == Side && pixels.Length2 == 3
      && indexConverter.Length0 == Side && indexConverter.Length1 == Side
      && (forall x, y :: 0 <= x < Side && 0 <= y < Side ==> indexConverter[x, y] == Led(x, y))
      && txBufferSize == FrameSize
    }

    /** The grid as the tile sees it: the low byte of every channel, in
        row-major order (60 per row, 3 per pixel). */
    ghost function Channels(): (channels: seq<Byte>)
      requires pixels.Length0 == Side && pixels.Length1 == Side && pixels.Length2 == 3
      reads pixels
      ensures |channels| == FrameSize
    {
      seq(FrameSize, i requires 0 <= i < FrameSize reads pixels =>
        LowByte(pixels[i / 60, (i % 60) / 3, i % 3]))
    }

    lemma ChannelAt(x: nat, y: nat, c: nat)
      requires pixels.Length0 == Side && pixels.Length1 == Side && pixels.Length2 == 3
      requires x < Side && y < Side && c < 3
      ensures Channels()[ChannelIndex(x, y, c)] == LowByte(pixels[x, y, c])
    {
      ChannelIndexParts(x, y, c);
    }

    /** `new`: an all-zero grid, the wiring matrix and a 1200-byte
        transmit size; `serial` is the port already opened. */
    constructor (serial: Port, frameTime: nat, now: nat)
      ensures Valid() && fresh(pixels) && fresh(indexConverter)
      ensures forall x, y, c :: 0 <= x < Side && 0 <= y < Side && 0 <= c < 3 ==> pixels[x, y, c] == 0
      ensures this.serial == serial && this.frameTime == frameTime && lastSerialWriteTime == now
    {
      var grid := new U16[Side, Side, 3]((_, _, _) => 0);
      var matrix := new U16[Side, Side]((_, _) => 0);
      GenerateIndexConversionMatrix(matrix);
      pixels := grid;
      this.frameTime := frameTime;
      txBufferSize := grid.Length0 * grid.Length1 * 3;
      this.serial := serial;
      indexConverter := matrix;
      lastSerialWriteTime := now;
    }

    /** Fills the matrix row by row: row x starts at its band's first LED
        and each step to the next column adds five. */
    static method GenerateIndexConversionMatrix(indexConverter: array2<U16>)
      requires indexConverter.Length0 == Side && indexConverter.Length1 == Side
      modifies indexConverter
      ensures forall x, y :: 0 <= x < Side && 0 <= y < Side ==> indexConverter[x, y] == Led(x, y)
    {
      for x := 0 to Side
        invariant forall a, b :: 0 <= a < x && 0 <= b < Side ==> indexConverter[a, b] == Led(a, b)
      {
        var rowStartValue := x;
        if x >= 15 {
          rowStartValue := 300 + x - 15;
        } else if x >= 10 {
          rowStartValue := 200 + x - 10;
        } else if x >= 5 {
          rowStartValue := 100 + x - 5;
        }
        assert rowStartValue == RowStart(x);
        var y := 0;
        var index := rowStartValue;
        while index < rowStartValue + 100
          invariant y <= Side && index == rowStartValue + 5 * y
          invariant forall a, b :: 0 <= a < x && 0 <= b < Side ==> indexConverter[a, b] == Led(a, b)
          invariant forall b :: 0 <= b < y ==> indexConverter[x, b] == Led(x, b)
        {
          indexConverter[x, y] := index;
          y := y + 1;
          index := index + 5;
        }
      }
    }

    /** The channel loops of `show`: every pixel's three low bytes go to
        three times its LED number plus the channel, and the checksum folds
        them in with wrapping adds. */
    method EncodeFrame() returns (buffer: array<Byte>, crc: Byte)
      requires Valid()
      ensures fresh(buffer) && buffer.Length == txBufferSize
      ensures buffer[..] == Scatter(Channels(), 0) && crc == Checksum(Channels())
    {
      ghost var channels := Channels();
      buffer := new Byte[txBufferSize](_ => 0);
      crc := 0;
      ScatterBlank<Byte>([], 0);
      assert buffer[..] == Scatter(channels[..0], 0);
      for x := 0 to Side
        modifies buffer
        invariant buffer[..] == Scatter(channels[..60 * x], 0) && crc == Checksum(channels[..60 * x])
      {
        for y := 0 to Side
          modifies buffer
          invariant buffer[..] == Scatter(channels[..60 * x + 3 * y], 0) && crc == Checksum(channels[..60 * x + 3 * y])
        {
          ChannelAt(x, y, 0);
          ChannelAt(x, y, 1);
          ChannelAt(x, y, 2);
          crc := EncodePixel(buffer, x, y, crc, channels);
        }
      }
      assert channels[..60 * Side] == channels;
    }

    /** The body of the channel loops for pixel (x, y): its three channels
        are the next three in row-major order. */
    method EncodePixel(buffer: array<Byte>, x: nat, y: nat, crc: Byte, ghost channels: seq<Byte>)
      returns (next: Byte)
      requires pixels.Length0 == Side && pixels.Length1 == Side && pixels.Length2 == 3
      requires indexConverter.Length0 == Side && indexConverter.Length1 == Side
      requires buffer.Length == FrameSize && |channels| == FrameSize && x < Side && y < Side
      requires indexConverter[x, y] == Led(x, y)
      requires forall c :: 0 <= c < 3 ==> channels[ChannelIndex(x, y, c)] == LowByte(pixels[x, y, c])
      requires buffer[..] == Scatter(channels[..ChannelIndex(x, y, 0)], 0)
      requires crc == Checksum(channels[..ChannelIndex(x, y, 0)])
      modifies buffer
      ensures buffer[..] == Scatter(channels[..ChannelIndex(x, y, 0) + 3], 0)
      ensures next == Checksum(channels[..ChannelIndex(x, y, 0) + 3])
    {
      var index := indexConverter[x, y];
      ghost var i := ChannelIndex(x, y, 0);
      var p0, p1, p2 := LowByte(pixels[x, y, 0]), LowByte(pixels[x, y, 1]), LowByte(pixels[x, y, 2]);
      PixelOffsets(x, y);
      assert channels[i] == p0 && channels[i + 1] == p1 && channels[i + 2] == p2 by {
        assert ChannelIndex(x, y, 1) == i + 1 && ChannelIndex(x, y, 2) == i + 2;
      }
      ScatterPixelStep(channels, 0, x, y);
      ChecksumTripleStep(channels, i, crc);
      buffer[index * 3] := p0;
      buffer[index * 3 + 1] := p1;
      buffer[index * 3 + 2] := p2;
      next := WrappingAdd(WrappingAdd(WrappingAdd(crc, p0), p1), p2);
    }

    /** `show`: encodes the grid, sleeps `wait` milliseconds as the pacing
        rule says, writes the 1201 bytes and returns the time since the
        previous write in microseconds. A failed write stops the program
        (`expect`), shown as None with the clock of the last write kept. */
    method Show(forceFrameTime: bool, now: nat) returns (elapsed: Option<nat>, wait: nat)
      requires Valid() && now >= lastSerialWriteTime
      modifies this, serial
      ensures wait == FrameWait(forceFrameTime, frameTime, (now - old(lastSerialWriteTime)) / 1000)
      ensures !Delivers(old(serial.State())) ==>
        elapsed.None? && serial.sent == old(serial.sent) && lastSerialWriteTime == old(lastSerialWriteTime)
      ensures Delivers(old(serial.State())) ==>
        && serial.sent == old(serial.sent) + Scatter(Channels(), 0) + [Checksum(Channels())]
        && lastSerialWriteTime == now + 1000 * wait
        && elapsed == Some(lastSerialWriteTime - old(lastSerialWriteTime))
        && lastSerialWriteTime >= old(lastSerialWriteTime) + 1000 * frameTime
      ensures serial.State() == AfterWrite(old(serial.State()))
      ensures frameTime == old(frameTime)
    {
      var buffer, crc := EncodeFrame();
      var transmission := buffer[..] + [crc];

      var millis := (now - lastSerialWriteTime) / 1000;
      if forceFrameTime {
        wait := frameTime;
      } else if millis < frameTime {
        var timePassed := millis;
        wait := frameTime - timePassed;
      } else {
        wait := 0;
      }

      var ok := serial.Write(transmission);
      if !ok {
        return None, wait;
      }
      PacedGap(forceFrameTime, frameTime, lastSerialWriteTime, now);
      var frameTimeMicros := now + 1000 * wait - lastSerialWriteTime;
      lastSerialWriteTime := now + 1000 * wait;
      elapsed := Some(frameTimeMicros);
    }

    method SetFrameTime(frameTime: nat)
      modifies this
      ensures this.frameTime == frameTime && lastSerialWriteTime == old(lastSerialWriteTime)
    {
      this.frameTime := frameTime;
    }

    method GetFrameTime() returns (frameTime: nat)
      ensures frameTime == this.frameTime
    {
      frameTime := this.frameTime;
    }
  }

  /** The transmission `show` sends: 1201 bytes, channel c of pixel (x, y)
      at three times its LED number plus c, the checksum last. */
  lemma TransmissionLayout(channels: seq<Byte>)
    requires |channels| == FrameSize
    ensures |Scatter(channels, 0) + [Checksum(channels)]| == FrameSize + 1
    ensures forall x, y, c :: 0 <= x < Side && 0 <= y < Side && 0 <= c < 3 ==>
      (Scatter(channels, 0) + [Checksum(channels)])[3 * Led(x, y) + c] == channels[ChannelIndex(x, y, c)]
    ensures (Scatter(channels, 0) + [Checksum(channels)])[FrameSize] == Checksum(channels)
  {
    forall x, y, c | 0 <= x < Side && 0 <= y < Side && 0 <= c < 3
      ensures 3 * Led(x, y) + c < FrameSize
      ensures (Scatter(channels, 0) + [Checksum(channels)])[3 * Led(x, y) + c] == channels[ChannelIndex(x, y, c)]
    {
      PixelPlacement(channels, x, y, c);
    }
  }
}
