/** The Python driver for a single tile (lib/contourwall.py): a 20x20 grid
    of integer channel values and `show`, which lays the grid out in wiring
    order and writes it as 1200 bytes, without a command byte or a
    checksum. Python's `bytes` refuses any value outside 0..255, so a grid
    holding one stops `show` before anything is written. */
module PyWall {
  import opened Common
  import opened Wiring
  import opened Serial

  /** How `show` ends: written, stopped by `bytes` (ValueError) or by the
      serial port (the write raising). */
  datatype ShowOutcome = Written | NotBytes | WriteFailed

  /** Every value fits `bytes`. */
  predicate AllBytes(s: seq<int>)
  {
    forall i :: 0 <= i < |s| ==> 0 <= s[i] < 256
  }

  /** The frame the Python driver writes is the frame part of what the Rust
      driver writes for the same byte values: the same layout, only the
      trailing checksum is missing. */
  lemma SameFrameAsRust(channels: seq<Byte>, values: seq<int>)
    requires |channels| == FrameSize && values == channels
    ensures (Scatter(channels, 0) + [Checksum(channels)])[..FrameSize] == Scatter(values, 0)
  {
    assert (Scatter(channels, 0) + [Checksum(channels)])[..FrameSize] == Scatter(channels, 0);
  }

  /** A frame holds only bytes exactly when the grid does: every channel
      lands somewhere, and the padding is zero. */
  lemma {:induction false} ScatterBytes(channels: seq<int>)
    requires |channels| == FrameSize
    ensures AllBytes(Scatter(channels, 0)) <==> AllBytes(channels)
  {
    ScatterPlaces(channels, 0);
    if AllBytes(Scatter(channels, 0)) {
      forall i | 0 <= i < FrameSize ensures 0 <= channels[i] < 256 {
        assert Scatter(channels, 0)[PhysicalOffset(i)] == channels[i];
      }
    }
    if AllBytes(channels) {
      forall p | 0 <= p < FrameSize ensures 0 <= Scatter(channels, 0)[p] < 256 {
        PhysicalOfLogical(p);
      }
    }
  }

  class ContourWall {
    const pixels: array3<int>
    const indexConverter: array2<int>
    const serial: Port

    ghost predicate Valid()
      reads indexConverter
    {
      && pixels.Length0 == Side && pixels.Length1 == Side && pixels.Length2 == 3
      && indexConverter.Length0 == Side && indexConverter.Length1 == Side
      && (forall x, y :: 0 <= x < Side && 0 <= y < Side ==> indexConverter[x, y] == Led(x, y))
    }

    /** The grid in row-major order (60 values per row, 3 per pixel), as
        the channel loops of `show` visit it. */
    ghost function Channels(): (channels: seq<int>)
      requires pixels.Length0 == Side && pixels.Length1 == Side && pixels.Length2 == 3
      reads pixels
      ensures |channels| == FrameSize
    {
      seq(FrameSize, i requires 0 <= i < FrameSize reads pixels => pixels[i / 60, (i % 60) / 3, i % 3])
    }

    lemma ChannelAt(x: nat, y: nat, c: nat)
      requires pixels.Length0 == Side && pixels.Length1 == Side && pixels.Length2 == 3
      requires x < Side && y < Side && c < 3
      ensures Channels()[ChannelIndex(x, y, c)] == pixels[x, y, c]
    {
      ChannelIndexParts(x, y, c);
    }

    /** `__init__`: an all-zero grid and the wiring matrix; `serial` is the
        port already opened. */
    constructor (serial: Port)
      ensures Valid() && fresh(pixels) && fresh(indexConverter) && this.serial == serial
      ensures forall x, y, c :: 0 <= x < Side && 0 <= y < Side && 0 <= c < 3 ==> pixels[x, y, c] == 0
    {
      var grid := new int[Side, Side, 3]((_, _, _) => 0);
      var matrix := new int[Side, Side]((_, _) => 0);
      pixels := grid;
      indexConverter := matrix;
      this.serial := serial;
      new;
      GenerateIndexConversionMatrix();
    }

    /** `__generate_index_conversion_matrix`: row x starts at its band's
        first LED, and each column adds five. */
    method GenerateIndexConversionMatrix()
      requires indexConverter.Length0 == Side && indexConverter.Length1 == Side
      modifies indexConverter
      ensures forall x, y :: 0 <= x < Side && 0 <= y < Side ==> indexConverter[x, y] == Led(x, y)
    {
      for x := 0 to Side
        invariant forall a, b :: 0 <= a < x && 0 <= b < Side ==> indexConverter[a, b] == Led(a, b)
      {
        var rowStartValue := x;
        if x >= 15 {
          rowStartValue := 300 + x - 15;
        } else if x >= 10 {
          rowStartValue := 200 + x - 10;
        } else if x >= 5 {
          rowStartValue := 100 + x - 5;
        }
        assert rowStartValue == RowStart(x);
        var y := 0;
        var index := rowStartValue;
        while index < rowStartValue + 100
          invariant y <= Side && index == rowStartValue + 5 * y
          invariant forall a, b :: 0 <= a < x && 0 <= b < Side ==> indexConverter[a, b] == Led(a, b)
          invariant forall b :: 0 <= b < y ==> indexConverter[x, b] == Led(x, b)
        {
          indexConverter[x, y] := index;
          y := y + 1;
          index := index + 5;
        }
      }
    }

    /** The channel loops of `show`: a list of 1200 zeros in which every
        pixel's three values go to three times its LED number plus the
        channel. */
    method Arrange() returns (data: array<int>)
      requires Valid()
      ensures fresh(data) && data[..] == Scatter(Channels(), 0)
    {
      ghost var channels := Channels();
      data := new int[FrameSize](_ => 0);
      ScatterBlank<int>([], 0);
      assert data[..] == Scatter(channels[..0], 0);
      for x := 0 to Side
        invariant data[..] == Scatter(channels[..60 * x], 0)
      {
        for y := 0 to Side
          invariant data[..] == Scatter(channels[..60 * x + 3 * y], 0)
        {
          ChannelAt(x, y, 0);
          ChannelAt(x, y, 1);
          ChannelAt(x, y, 2);
          PlacePixel(data, x, y, channels);
        }
      }
      assert channels[..60 * Side] == channels;
    }

    /** The body of the channel loops for pixel (x, y). */
    method PlacePixel(data: array<int>, x: nat, y: nat, ghost channels: seq<int>)
      requires pixels.Length0 == Side && pixels.Length1 == Side && pixels.Length2 == 3
      requires indexConverter.Length0 == Side && indexConverter.Length1 == Side
      requires data.Length == FrameSize && |channels| == FrameSize && x < Side && y < Side
      requires indexConverter[x, y] == Led(x, y)
      requires forall c :: 0 <= c < 3 ==> channels[ChannelIndex(x, y, c)] == pixels[x, y, c]
      requires data[..] == Scatter(channels[..ChannelIndex(x, y, 0)], 0)
      modifies data
      ensures data[..] == Scatter(channels[..ChannelIndex(x, y, 0) + 3], 0)
    {
      var index := indexConverter[x, y];
      ghost var i := ChannelIndex(x, y, 0);
      var p0, p1, p2 := pixels[x, y, 0], pixels[x, y, 1], pixels[x, y, 2];
      PixelOffsets(x, y);
      assert channels[i] == p0 && channels[i + 1] == p1 && channels[i + 2] == p2 by {
        assert ChannelIndex(x, y, 1) == i + 1 && ChannelIndex(x, y, 2) == i + 2;
      }
      ScatterPixelStep(channels, 0, x, y);
      data[index * 3 + 0] := p0;
      data[index * 3 + 1] := p1;
      data[index * 3 + 2] := p2;
    }

    /** `show`: the laid-out grid written as bytes, or nothing written when
        a value does not fit a byte or the port fails. */
    method Show() returns (outcome: ShowOutcome)
      requires Valid()
      modifies serial
      ensures !AllBytes(Channels()) ==> outcome == NotBytes && serial.sent == old(serial.sent)
      ensures AllBytes(Channels()) && !Delivers(old(serial.State())) ==>
        outcome == WriteFailed && serial.sent == old(serial.sent)
      ensures AllBytes(Channels()) && Delivers(old(serial.State())) ==>
        outcome == Written && serial.sent == old(serial.sent) + Scatter(Channels(), 0)
      ensures serial.State() ==
        if AllBytes(Channels()) then AfterWrite(old(serial.State())) else old(serial.State())
    {
      var data := Arrange();
      ScatterBytes(Channels());
      var i := 0;
      while i < data.Length
        invariant i <= data.Length
        invariant forall j :: 0 <= j < i ==> 0 <= data[j] < 256
      {
        if !(0 <= data[i] < 256) {
          return NotBytes;
        }
        i := i + 1;
      }
      var frame: seq<Byte> := data[..];
      var ok := serial.Write(frame);
      outcome := if ok then Written else WriteFailed;
    }
  }

  /** A fresh driver writes 1200 zero bytes. */
  lemma ZeroGridFrame(channels: seq<int>)
    requires |channels| == FrameSize && forall i :: 0 <= i < FrameSize ==> channels[i] == 0
    ensures AllBytes(channels)
    ensures Scatter(channels, 0) == seq(FrameSize, _ => 0)
  {
    ScatterBlank(channels, 0);
  }
}
