/** The physical wiring of a 20x20 tile. The LEDs are chained in four
    horizontal bands of five rows; inside a band the chain runs down each
    column of five LEDs in turn, so logical row x starts at LED
    (x div 5)*100 + (x mod 5) and each step to the next column skips five
    LEDs. Frame buffers hold three channel bytes per LED, so logical
    channel i (row-major: 60 per row, 3 per column) travels at byte offset
    PhysicalOffset(i). */
module Wiring {
  import opened Common

  const Side: nat := 20
  const LedCount: nat := 400
  const FrameSize: nat := 1200

  /** First LED of logical row x, as the `match` over the row ranges gives it. */
  function RowStart(x: nat): (start: nat)
    requires x < Side
    ensures start <= 304
  {
    if x <= 4 then x
    else if x <= 9 then 100 + x - 5
    else if x <= 14 then 200 + x - 10
    else 300 + x - 15
  }

  /** The LED that shows logical pixel (x, y). */
  function Led(x: nat, y: nat): (led: nat)
    requires x < Side && y < Side
    ensures led < LedCount
  {
    RowStart(x) + 5 * y
  }

  /** The ranges of the row `match` are exactly the bands of five rows. */
  lemma RowStartIsBand(x: nat)
    requires x < Side
    ensures RowStart(x) == (x / 5) * 100 + x % 5
  {
  }

  /** Distinct pixels are wired to distinct LEDs. */
  lemma LedInjective(x1: nat, y1: nat, x2: nat, y2: nat)
    requires x1 < Side && y1 < Side && x2 < Side && y2 < Side
    requires Led(x1, y1) == Led(x2, y2)
    ensures x1 == x2 && y1 == y2
  {
    LedParts(x1, y1);
    LedParts(x2, y2);
    assert x1 == 5 * (x1 / 5) + x1 % 5 && x2 == 5 * (x2 / 5) + x2 % 5;
  }

  /** Logical channel index of channel c of pixel (x, y) in a row-major
      20x20x3 buffer. */
  function ChannelIndex(x: nat, y: nat, c: nat): (i: nat)
    requires x < Side && y < Side && c < 3
    ensures i < FrameSize
  {
    60 * x + 3 * y + c
  }

  /** Byte offset in the transmitted frame of logical channel i. */
  function PhysicalOffset(i: nat): (p: nat)
    requires i < FrameSize
    ensures p < FrameSize && p % 3 == i % 3
  {
    3 * Led(i / 60, (i % 60) / 3) + i % 3
  }

  /** Logical channel index carried by frame byte p: the inverse table. */
  function LogicalOffset(p: nat): (i: nat)
    requires p < FrameSize
    ensures i < FrameSize && i % 3 == p % 3
  {
    var led := p / 3;
    60 * ((led / 100) * 5 + led % 5) + 3 * ((led % 100) / 5) + p % 3
  }

  /** The whole conversion table: entry i is the frame offset of logical
      channel i. */
  function WiringTable(): (table: seq<int>)
    ensures |table| == FrameSize
  {
    seq(FrameSize, i requires 0 <= i < FrameSize => PhysicalOffset(i))
  }

  /** The parts of a logical channel index. */
  lemma ChannelIndexParts(x: nat, y: nat, c: nat)
    requires x < Side && y < Side && c < 3
    ensures ChannelIndex(x, y, c) / 60 == x
    ensures (ChannelIndex(x, y, c) % 60) / 3 == y
    ensures ChannelIndex(x, y, c) % 3 == c
  {
    var i := ChannelIndex(x, y, c);
    assert i == 60 * x + (3 * y + c) && 3 * y + c < 60;
    assert i / 60 == x && i % 60 == 3 * y + c;
  }

  /** The table entry of pixel (x, y), channel c. */
  lemma PhysicalOffsetAt(x: nat, y: nat, c: nat)
    requires x < Side && y < Side && c < 3
    ensures PhysicalOffset(ChannelIndex(x, y, c)) == 3 * Led(x, y) + c
  {
    ChannelIndexParts(x, y, c);
  }

  /** The parts of an LED number, read back from the band formula. */
  lemma LedParts(x: nat, y: nat)
    requires x < Side && y < Side
    ensures Led(x, y) / 100 == x / 5
    ensures Led(x, y) % 5 == x % 5
    ensures (Led(x, y) % 100) / 5 == y
  {
    var led := Led(x, y);
    var b, r := x / 5, x % 5;
    RowStartIsBand(x);
    assert led == 100 * b + (5 * y + r) && 5 * y + r < 100;
    assert led / 100 == b && led % 100 == 5 * y + r;
    assert (5 * y + r) / 5 == y && (5 * y + r) % 5 == r;
    assert led == 5 * (20 * b + y) + r;
  }

  /** Reading a transmitted byte back through the inverse table recovers
      the logical channel that was placed there. */
  lemma LogicalOfPhysical(i: nat)
    requires i < FrameSize
    ensures PhysicalOffset(i) < FrameSize
    ensures LogicalOffset(PhysicalOffset(i)) == i
  {
    var x, y, c := i / 60, (i % 60) / 3, i % 3;
    assert i == ChannelIndex(x, y, c);
    var led := Led(x, y);
    var p := 3 * led + c;
    assert p / 3 == led && p % 3 == c;
    LedParts(x, y);
    assert (led / 100) * 5 + led % 5 == x;
  }

  /** An LED number split into its band, its column and its row in band. */
  lemma LedFromParts(led: nat)
    requires led < LedCount
    ensures led / 100 < 4 && (led % 100) / 5 < Side
    ensures led == 100 * (led / 100) + 5 * ((led % 100) / 5) + led % 5
    ensures (led % 100) % 5 == led % 5
  {
    var b, m := led / 100, led % 100;
    assert led == 100 * b + m;
    var y, r := m / 5, m % 5;
    assert m == 5 * y + r;
    assert led == 5 * (20 * b + y) + r;
  }

  /** Every frame byte is the image of the logical channel the inverse table
      names. */
  lemma PhysicalOfLogical(p: nat)
    requires p < FrameSize
    ensures LogicalOffset(p) < FrameSize
    ensures PhysicalOffset(LogicalOffset(p)) == p
  {
    var led, c := p / 3, p % 3;
    assert p == 3 * led + c;
    LedFromParts(led);
    var b, r, y := led / 100, led % 5, (led % 100) / 5;
    var x := b * 5 + r;
    assert x < Side && y < Side;
    assert x / 5 == b && x % 5 == r;
    RowStartIsBand(x);
    assert RowStart(x) == 100 * b + r;
    assert Led(x, y) == led;
    assert LogicalOffset(p) == ChannelIndex(x, y, c);
    PhysicalOffsetAt(x, y, c);
  }

  /** The wiring table is a bijection on the 1200 frame offsets: distinct
      channels go to distinct bytes and every byte is the image of one
      channel. */
  lemma PhysicalOffsetIsBijection()
    ensures forall i :: 0 <= i < FrameSize ==> PhysicalOffset(i) < FrameSize
    ensures forall i, j :: 0 <= i < j < FrameSize ==> PhysicalOffset(i) != PhysicalOffset(j)
    ensures forall p :: 0 <= p < FrameSize ==>
              LogicalOffset(p) < FrameSize && PhysicalOffset(LogicalOffset(p)) == p
  {
    forall i | 0 <= i < FrameSize ensures PhysicalOffset(i) < FrameSize {
      LogicalOfPhysical(i);
    }
    forall i, j | 0 <= i < j < FrameSize ensures PhysicalOffset(i) != PhysicalOffset(j) {
      LogicalOfPhysical(i);
      LogicalOfPhysical(j);
    }
    forall p | 0 <= p < FrameSize
      ensures LogicalOffset(p) < FrameSize && PhysicalOffset(LogicalOffset(p)) == p
    {
      PhysicalOfLogical(p);
    }
  }

  /** Entries the source's own unit test checks. */
  lemma KnownEntries()
    ensures PhysicalOffset(1199) == 1199
    ensures PhysicalOffset(60) == 3
    ensures PhysicalOffset(300) == 300
    ensures PhysicalOffset(659) == 887
  {
  }

  /** The frame a tile receives for a logical channel buffer `s` (row-major,
      three channels per pixel) of at most 1200 entries: entry p carries the
      logical channel the wiring maps to p, and entries whose channel lies
      beyond `s` keep the `blank` value the buffer was created with. */
  function Scatter<T>(s: seq<T>, blank: T): (frame: seq<T>)
    requires |s| <= FrameSize
    ensures |frame| == FrameSize
  {
    seq(FrameSize, p requires 0 <= p < FrameSize =>
      if LogicalOffset(p) < |s| then s[LogicalOffset(p)] else blank)
  }

  /** Every logical entry lands at the offset the wiring table gives it. */
  lemma ScatterPlaces<T>(s: seq<T>, blank: T)
    requires |s| <= FrameSize
    ensures forall i :: 0 <= i < |s| ==>
      PhysicalOffset(i) < FrameSize && Scatter(s, blank)[PhysicalOffset(i)] == s[i]
  {
    forall i | 0 <= i < |s| ensures PhysicalOffset(i) < FrameSize && Scatter(s, blank)[PhysicalOffset(i)] == s[i] {
      LogicalOfPhysical(i);
    }
  }

  /** A buffer of blanks encodes to a frame of blanks. */
  lemma ScatterBlank<T>(s: seq<T>, blank: T)
    requires |s| <= FrameSize
    requires forall i :: 0 <= i < |s| ==> s[i] == blank
    ensures forall p :: 0 <= p < FrameSize ==> Scatter(s, blank)[p] == blank
  {
  }

  /** Encoding is lossless: reading every logical channel back from the
      frame through the same table recovers the buffer. */
  lemma ScatterRoundTrip<T>(s: seq<T>, blank: T)
    requires |s| == FrameSize
    ensures seq(FrameSize, i requires 0 <= i < FrameSize => Scatter(s, blank)[PhysicalOffset(i)]) == s
  {
    ScatterPlaces(s, blank);
  }

  /** Placing one more logical entry fills exactly its own physical slot and
      leaves every other entry of the frame as it was. */
  lemma ScatterAppend<T>(s: seq<T>, blank: T, b: T)
    requires |s| < FrameSize
    ensures PhysicalOffset(|s|) < FrameSize
    ensures Scatter(s + [b], blank) == Scatter(s, blank)[PhysicalOffset(|s|) := b]
  {
    LogicalOfPhysical(|s|);
    var k := PhysicalOffset(|s|);
    forall p | 0 <= p < FrameSize ensures Scatter(s + [b], blank)[p] == Scatter(s, blank)[k := b][p] {
      if p != k {
        PhysicalOfLogical(p);
      }
    }
  }

  /** The three channels of one pixel are consecutive logical channels
      and land on three consecutive frame bytes. */
  lemma PixelOffsets(x: nat, y: nat)
    requires x < Side && y < Side
    ensures ChannelIndex(x, y, 0) + 2 < FrameSize
    ensures PhysicalOffset(ChannelIndex(x, y, 0)) == 3 * Led(x, y)
    ensures PhysicalOffset(ChannelIndex(x, y, 0) + 1) == 3 * Led(x, y) + 1
    ensures PhysicalOffset(ChannelIndex(x, y, 0) + 2) == 3 * Led(x, y) + 2
  {
    PhysicalOffsetAt(x, y, 0);
    PhysicalOffsetAt(x, y, 1);
    PhysicalOffsetAt(x, y, 2);
    assert ChannelIndex(x, y, 1) == ChannelIndex(x, y, 0) + 1;
    assert ChannelIndex(x, y, 2) == ChannelIndex(x, y, 0) + 2;
  }

  /** The three channels of one pixel placed in one go, as the encoder
      loops over pixels do: they are the next three logical entries and
      fill three consecutive frame entries. */
  lemma ScatterPixelStep<T>(s: seq<T>, blank: T, x: nat, y: nat)
    requires |s| == FrameSize && x < Side && y < Side
    ensures var i, k := ChannelIndex(x, y, 0), 3 * Led(x, y);
      Scatter(s[..i + 3], blank) == Scatter(s[..i], blank)[k := s[i]][k + 1 := s[i + 1]][k + 2 := s[i + 2]]
  {
    var i := ChannelIndex(x, y, 0);
    PixelOffsets(x, y);
    PrefixStep(s, i);
    PrefixStep(s, i + 1);
    PrefixStep(s, i + 2);
    ScatterAppend(s[..i], blank, s[i]);
    ScatterAppend(s[..i + 1], blank, s[i + 1]);
    ScatterAppend(s[..i + 2], blank, s[i + 2]);
  }
}
