/** The table generator and the frame splitter of the wall's core library. */
module Util {
  import opened Common
  import opened Wiring

  /** The first stage of the table generator: a 20x20 matrix holding, for
      every pixel, the offset of its first byte in a frame, filled band by
      band. */
  method LedOffsetMatrix() returns (matrix: array2<int>)
    ensures fresh(matrix) && matrix.Length0 == Side && matrix.Length1 == Side
    ensures forall a, b :: 0 <= a < Side && 0 <= b < Side ==> matrix[a, b] == 3 * Led(a, b)
  {
    matrix := new int[Side, Side];
    for x := 0 to Side
      invariant forall a, b :: 0 <= a < x && 0 <= b < Side ==> matrix[a, b] == 3 * Led(a, b)
    {
      var rowStart: nat;
      if x <= 4 {
        rowStart := x;
      } else if x <= 9 {
        rowStart := 100 + x - 5;
      } else if x <= 14 {
        rowStart := 200 + x - 10;
      } else {
        rowStart := 300 + x - 15;
      }
      assert rowStart == RowStart(x);
      var y := 0;
      var index := rowStart;
      while index < rowStart + 100
        invariant 0 <= y <= Side && index == rowStart + 5 * y
        invariant forall a, b :: 0 <= a < x && 0 <= b < Side ==> matrix[a, b] == 3 * Led(a, b)
        invariant forall b :: 0 <= b < y ==> matrix[x, b] == 3 * Led(x, b)
      {
        assert index * 3 == 3 * Led(x, y);
        matrix[x, y] := index * 3;
        y := y + 1;
        index := index + 5;
      }
    }
  }

  /** Builds the 1200-entry conversion vector: the matrix of pixel offsets,
      flattened so that every channel of a pixel gets its own entry. */
  method GenerateIndexConversionVector() returns (result: array<int>)
    ensures fresh(result) && result.Length == FrameSize
    ensures forall i :: 0 <= i < FrameSize ==> result[i] == PhysicalOffset(i)
  {
    var matrix := LedOffsetMatrix();
    result := new int[FrameSize](_ => 0);
    var index := 0;
    for row := 0 to Side
      modifies result
      invariant index == 60 * row
      invariant forall x, y, c :: 0 <= x < Side && 0 <= y < Side && 0 <= c < 3 &&
                                  ChannelIndex(x, y, c) < index ==>
                                    result[ChannelIndex(x, y, c)] == 3 * Led(x, y) + c
    {
      for column := 0 to Side
        modifies result
        invariant index == 60 * row + 3 * column
        invariant forall x, y, c :: 0 <= x < Side && 0 <= y < Side && 0 <= c < 3 &&
                                    ChannelIndex(x, y, c) < index ==>
                                      result[ChannelIndex(x, y, c)] == 3 * Led(x, y) + c
      {
        var element := matrix[row, column];
        result[index] := element;
        result[index + 1] := element + 1;
        result[index + 2] := element + 2;
        forall x, y, c | 0 <= x < Side && 0 <= y < Side && 0 <= c < 3 && index <= ChannelIndex(x, y, c) < index + 3
          ensures result[ChannelIndex(x, y, c)] == 3 * Led(x, y) + c
        {
          var k := ChannelIndex(x, y, c) - index;
          ChannelIndexParts(x, y, c);
          ChannelIndexParts(row, column, k);
        }
        index := index + 3;
      }
    }
    GridTableIsPhysical(result[..]);
  }

  /** A table holding, at the index of every channel of every pixel, that
      channel's offset in the LED chain is the wiring table. */
  lemma GridTableIsPhysical(table: seq<int>)
    requires |table| == FrameSize
    requires forall x, y, c :: 0 <= x < Side && 0 <= y < Side && 0 <= c < 3 ==>
                                 table[ChannelIndex(x, y, c)] == 3 * Led(x, y) + c
    ensures forall i :: 0 <= i < FrameSize ==> table[i] == PhysicalOffset(i)
  {
    forall i | 0 <= i < FrameSize ensures table[i] == PhysicalOffset(i) {
      var x, y, c := i / 60, (i % 60) / 3, i % 3;
      assert i == ChannelIndex(x, y, c);
    }
  }

  // Splitting a six-tile buffer into one frame per tile. Byte i goes to
  // frame (i div 2400) + 3 * [(i mod 120) > 59]: every 2400-byte third
  // feeds one column of tiles, and inside it each 120-byte block holds 60
  // bytes (one tile row) for the top tile followed by 60 for the bottom one.

  const CompositeSize: nat := 7200
  const TileCount: nat := 6

  /** The frame that byte i of the composite buffer is pushed to. */
  function Target(i: nat): (t: nat)
    requires i < CompositeSize
    ensures t < TileCount
  {
    i / 2400 + (if i % 120 > 59 then 3 else 0)
  }

  /** The column of tiles frame t belongs to: frames 0 to 2 are the top
      row, frames 3 to 5 the bottom row. */
  function TileColumn(t: nat): (c: nat)
    requires t < TileCount
    ensures c < 3 && t == c + 3 * TileRow(t)
  {
    if t < 3 then t else t - 3
  }

  function TileRow(t: nat): (h: nat)
    requires t < TileCount
    ensures h < 2
  {
    if t < 3 then 0 else 1
  }

  /** The composite-buffer index of the p-th byte of frame t. */
  function Source(t: nat, p: nat): (i: nat)
    requires t < TileCount && p < FrameSize
    ensures i < CompositeSize
  {
    2400 * TileColumn(t) + 120 * (p / 60) + 60 * TileRow(t) + p % 60
  }

  function Clamp(v: int, hi: nat): (r: nat)
    ensures r <= hi
  {
    if v < 0 then 0 else if v > hi then hi else v
  }

  /** How many of the first n composite bytes are pushed to frame t. */
  function Count(t: nat, n: nat): (k: nat)
    requires t < TileCount && n <= CompositeSize
    ensures k <= FrameSize
  {
    var m := Clamp(n - 2400 * TileColumn(t), 2400);
    60 * (m / 120) + Clamp(m % 120 - 60 * TileRow(t), 60)
  }

  /** The six frames as the splitter builds them from a buffer `fb`. */
  function Split(fb: seq<Byte>): (frames: seq<seq<Byte>>)
    requires |fb| <= CompositeSize
    ensures |frames| == TileCount
  {
    seq(TileCount, t requires 0 <= t < TileCount =>
      seq(Count(t, |fb|), p requires 0 <= p < Count(t, |fb|) => fb[Source(t, p)]))
  }

  /** Count of a composite index given in its parts. */
  lemma CountAt(t: nat, n: nat, c: nat, b: nat, h: nat, r: nat)
    requires t < TileCount && c < 3 && b < 20 && h < 2 && r < 60
    requires n == 2400 * c + 120 * b + 60 * h + r
    ensures Count(t, n) ==
      if c < TileColumn(t) then 0
      else if c > TileColumn(t) then FrameSize
      else 60 * b + (if h == TileRow(t) then r else if h > TileRow(t) then 60 else 0)
  {
    var m := Clamp(n - 2400 * TileColumn(t), 2400);
    if c == TileColumn(t) {
      assert m == 120 * b + (60 * h + r);
      assert m / 120 == b && m % 120 == 60 * h + r;
    }
  }

  /** A composite index split into its third, its 120-byte block, its
      half-block and its offset in the half-block. */
  lemma Decompose(n: nat) returns (c: nat, b: nat, h: nat, r: nat)
    requires n < CompositeSize
    ensures c < 3 && b < 20 && h < 2 && r < 60
    ensures n == 2400 * c + 120 * b + 60 * h + r
    ensures Target(n) == c + 3 * h
  {
    c := n / 2400;
    var m := n % 2400;
    b := m / 120;
    var k := m % 120;
    h := k / 60;
    r := k % 60;
    assert n % 120 == k by {
      assert n == 120 * (20 * c + b) + k;
    }
  }

  /** The count of frame t just past composite index n, given n in parts,
      changes by one exactly when n is a byte of frame t. */
  lemma CountNext(t: nat, n: nat, c: nat, b: nat, h: nat, r: nat)
    requires t < TileCount && c < 3 && b < 20 && h < 2 && r < 60
    requires n == 2400 * c + 120 * b + 60 * h + r
    ensures Count(t, n + 1) == Count(t, n) + (if c == TileColumn(t) && h == TileRow(t) then 1 else 0)
  {
    if r < 59 {
      CountNextTo(t, n, c, b, h, r, c, b, h, r + 1);
    } else if h == 0 {
      CountNextTo(t, n, c, b, h, r, c, b, 1, 0);
    } else if b < 19 {
      CountNextTo(t, n, c, b, h, r, c, b + 1, 0, 0);
    } else if c < 2 {
      CountNextTo(t, n, c, b, h, r, c + 1, 0, 0, 0);
    } else {
      CountAt(t, n, c, b, h, r);
      assert n + 1 == CompositeSize;
      assert Count(t, n + 1) == FrameSize;
    }
  }

  /** CountNext for one successor position (c2, b2, h2, r2) of n. */
  lemma CountNextTo(t: nat, n: nat, c: nat, b: nat, h: nat, r: nat, c2: nat, b2: nat, h2: nat, r2: nat)
    requires t < TileCount && c < 3 && b < 20 && h < 2 && r < 60
    requires n == 2400 * c + 120 * b + 60 * h + r
    requires c2 < 3 && b2 < 20 && h2 < 2 && r2 < 60
    requires || (c2, b2, h2, r2) == (c, b, h, r + 1)
             || (r == 59 && (c2, b2, h2, r2) == (c, b, 1, 0) && h == 0)
             || (r == 59 && h == 1 && (c2, b2, h2, r2) == (c, b + 1, 0, 0))
             || (r == 59 && h == 1 && b == 19 && (c2, b2, h2, r2) == (c + 1, 0, 0, 0))
    ensures Count(t, n + 1) == Count(t, n) + (if c == TileColumn(t) && h == TileRow(t) then 1 else 0)
  {
    CountAt(t, n, c, b, h, r);
    CountAt(t, n + 1, c2, b2, h2, r2);
  }

  /** One more composite byte adds one to the count of its own frame only,
      and is placed right after the bytes already there. */
  lemma CountStep(t: nat, n: nat)
    requires t < TileCount && n < CompositeSize
    ensures Count(t, n + 1) == Count(t, n) + (if Target(n) == t then 1 else 0)
    ensures Target(n) == t ==> Count(t, n) < FrameSize && Source(t, Count(t, n)) == n
  {
    var c, b, h, r := Decompose(n);
    assert (Target(n) == t) == (c == TileColumn(t) && h == TileRow(t));
    CountNext(t, n, c, b, h, r);
    if Target(n) == t {
      CountAt(t, n, c, b, h, r);
      SourceOfCount(t, b, r);
    }
  }

  lemma SourceOfCount(t: nat, b: nat, r: nat)
    requires t < TileCount && b < 20 && r < 60
    ensures Source(t, 60 * b + r) == 2400 * TileColumn(t) + 120 * b + 60 * TileRow(t) + r
  {
    var k := 60 * b + r;
    assert k / 60 == b && k % 60 == r;
  }

  /** Element p of frame t. */
  lemma SplitAt(fb: seq<Byte>, t: nat, p: nat)
    requires |fb| <= CompositeSize && t < TileCount && p < Count(t, |fb|)
    ensures |Split(fb)[t]| == Count(t, |fb|)
    ensures Split(fb)[t][p] == fb[Source(t, p)]
  {
  }

  /** The bytes counted for frame t among the first n all come from below n. */
  lemma {:induction false} SourceBelow(t: nat, n: nat, p: nat)
    requires t < TileCount && n <= CompositeSize && p < Count(t, n)
    ensures Source(t, p) < n
  {
    if n > 0 {
      CountStep(t, n - 1);
      if p < Count(t, n - 1) {
        SourceBelow(t, n - 1, p);
      }
    }
  }

  /** Frame t after one more composite byte. */
  lemma SplitStepFrame(fb: seq<Byte>, i: nat, t: nat)
    requires i < |fb| <= CompositeSize && t < TileCount
    ensures Split(fb[..i + 1])[t] ==
      if t == Target(i) then Split(fb[..i])[t] + [fb[i]] else Split(fb[..i])[t]
  {
    var before, after := Split(fb[..i])[t], Split(fb[..i + 1])[t];
    var pushed := if t == Target(i) then before + [fb[i]] else before;
    CountStep(t, i);
    assert |after| == |pushed|;
    forall p | 0 <= p < |after| ensures after[p] == pushed[p] {
      SplitAt(fb[..i + 1], t, p);
      if p < Count(t, i) {
        SplitAt(fb[..i], t, p);
        SourceBelow(t, i, p);
      }
    }
  }

  /** Pushing composite byte i onto the frame `Target` names turns the
      split of the first i bytes into the split of the first i + 1. */
  lemma SplitStep(fb: seq<Byte>, i: nat)
    requires i < |fb| <= CompositeSize
    ensures Split(fb[..i + 1]) ==
      Split(fb[..i])[Target(i) := Split(fb[..i])[Target(i)] + [fb[i]]]
  {
    var before := Split(fb[..i]);
    var pushed := before[Target(i) := before[Target(i)] + [fb[i]]];
    forall t | 0 <= t < TileCount ensures Split(fb[..i + 1])[t] == pushed[t] {
      SplitStepFrame(fb, i, t);
    }
  }

  /** Splits a composite buffer into six frames, pushing each byte, in
      order, to the frame `Target` names. */
  method SplitFramebuffer(framebuffer: seq<Byte>) returns (framebuffers: seq<seq<Byte>>)
    requires |framebuffer| <= CompositeSize
    ensures framebuffers == Split(framebuffer)
  {
    framebuffers := [[], [], [], [], [], []];
    assert framebuffers == Split(framebuffer[..0]);
    for i := 0 to |framebuffer|
      invariant framebuffers == Split(framebuffer[..i])
    {
      var column := i / 2400;
      var row := if i % 120 > 59 then 3 else 0;
      SplitStep(framebuffer, i);
      framebuffers := framebuffers[column + row := framebuffers[column + row] + [framebuffer[i]]];
    }
    assert framebuffer[..|framebuffer|] == framebuffer;
  }

  /** A full composite buffer yields six frames of exactly 1200 bytes. */
  lemma SplitFullSizes(fb: seq<Byte>)
    requires |fb| == CompositeSize
    ensures forall t :: 0 <= t < TileCount ==> |Split(fb)[t]| == FrameSize
  {
    forall t | 0 <= t < TileCount ensures Count(t, CompositeSize) == FrameSize {
      var m := Clamp(CompositeSize - 2400 * TileColumn(t), 2400);
      assert m == 2400;
    }
  }

  /** Where a composite byte ends up: byte i is in frame Target(i). */
  lemma {:induction false} SplitPlacesByte(fb: seq<Byte>, i: nat)
    requires |fb| <= CompositeSize && i < |fb|
    ensures Count(Target(i), i) < |Split(fb)[Target(i)]|
    ensures Split(fb)[Target(i)][Count(Target(i), i)] == fb[i]
  {
    CountStep(Target(i), i);
    CountMonotone(Target(i), i + 1, |fb|);
  }

  lemma {:induction false} CountMonotone(t: nat, m: nat, n: nat)
    requires t < TileCount && m <= n <= CompositeSize
    ensures Count(t, m) <= Count(t, n)
    decreases n - m
  {
    if m < n {
      CountStep(t, m);
      CountMonotone(t, m + 1, n);
    }
  }

  /** Each frame keeps the relative order of its bytes in the composite
      buffer. */
  lemma SplitKeepsOrder(t: nat, p: nat, q: nat)
    requires t < TileCount && p < q < FrameSize
    ensures Source(t, p) < Source(t, q)
  {
  }

  /** Where each frame starts in a full composite buffer. */
  const FirstSources: seq<nat> := [0, 2400, 4800, 60, 2460, 4860]

  /** The first bytes of the six frames, as the source's unit test checks
      them: composite bytes 0, 2400, 4800 head the top row of tiles and
      bytes 60, 2460, 4860 the bottom row. */
  lemma SplitFirstBytes(fb: seq<Byte>)
    requires |fb| == CompositeSize
    ensures forall t :: 0 <= t < TileCount ==>
      |Split(fb)[t]| > 0 && Split(fb)[t][0] == fb[FirstSources[t]]
  {
    forall t | 0 <= t < TileCount ensures |Split(fb)[t]| > 0 && Split(fb)[t][0] == fb[FirstSources[t]] {
      SplitHead(fb, t);
    }
  }

  /** The first byte of frame t of a full composite buffer. */
  lemma SplitHead(fb: seq<Byte>, t: nat)
    requires |fb| == CompositeSize && t < TileCount
    ensures |Split(fb)[t]| > 0 && Split(fb)[t][0] == fb[Source(t, 0)]
  {
    SplitFullSizes(fb);
    SplitAt(fb, t, 0);
  }
}
