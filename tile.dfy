/** The driver for one tile: a serial connection, the wiring table and the
    seven commands of the tile protocol. Every command starts with its
    command byte; replies are single status bytes unless stated otherwise. */
module TileDriver {
  import opened Common
  import opened StatusCodes
  import opened Wiring
  import opened Serial
  import Util

  datatype InitError = NotAnEllieTile | FailedToOpenConnection

  /** The minimum time between two shows, in milliseconds, of a new tile. */
  const DefaultFrameTime: nat := 33

  /** The five bytes a tile sends on connection: "Ellie" in ASCII. */
  const Magic: seq<Byte> := [69, 108, 108, 105, 101]

  /** Whether a reply begins with the five magic bytes "Ellie". */
  predicate Greeting(inbox: seq<Byte>)
  {
    |inbox| >= 5 && inbox[..5] == Magic
  }

  /** The largest number of LEDs one command 3 may carry. */
  const MaxLeds: nat := 255

  /** How long to sleep before the next show: the rest of the frame time,
      or nothing once a whole frame time has passed since the last write. */
  function PacingDelay(elapsed: nat, frameTime: nat): (wait: nat)
    ensures elapsed + wait >= frameTime
    ensures wait > 0 ==> elapsed + wait == frameTime
  {
    if elapsed < frameTime then frameTime - elapsed else 0
  }

  /** The status a one-byte reply decodes to: a missing or unknown byte is
      an internal error, any other byte is the status it encodes. */
  function ReplyStatus(inbox: seq<Byte>): (s: StatusCode)
    ensures |inbox| >= 1 && inbox[0] in KnownCodes ==> AsU8(s) == inbox[0]
    ensures |inbox| == 0 || inbox[0] !in KnownCodes ==> s == ErrorInternal
  {
    if |inbox| < 1 then ErrorInternal
    else match New(inbox[0])
      case Some(s) => s
      case None => ErrorInternal
  }

  /** The reply of command 4, three bytes: the identifier twice and a status. */
  function DecodeIdentifier(reply: seq<Byte>): (r: (StatusCode, Byte))
    requires |reply| == 3
    ensures reply[2] !in KnownCodes ==> r == (ErrorInternal, 0)
    ensures reply[2] in KnownCodes && reply[0] != reply[1] ==> r == (NonMatchingCRC, 0)
    ensures reply[2] in KnownCodes && reply[0] == reply[1] ==>
              AsU8(r.0) == reply[2] && r.1 == reply[0]
  {
    match New(reply[2])
    case None => (ErrorInternal, 0)
    case Some(s) => if reply[0] != reply[1] then (NonMatchingCRC, 0) else (s, reply[0])
  }

  /** One command as the tile driver runs it: the bytes it writes, the
      status it returns and the link it leaves behind. */
  datatype Exchange = Exchange(written: seq<Byte>, status: StatusCode, link: Link)

  /** A command cut short by a write that fails: ErrorInternal, with only
      what earlier writes sent. */
  function Cut(written: seq<Byte>, l: Link): (e: Exchange)
    ensures e.status == ErrorInternal && e.written == written
  {
    Exchange(written, ErrorInternal, AfterWrite(l))
  }

  /** A command whose writes went through, ended by a one-byte status
      reply. */
  function Replied(written: seq<Byte>, l: Link): (e: Exchange)
    ensures e.written == written && e.link.faults == l.faults
  {
    Exchange(written, ReplyStatus(l.inbox), AfterRead(l, 1))
  }

  /** Command 1: one colour for the whole tile, with its checksum, in one
      write. */
  function SolidColorExchange(red: Byte, green: Byte, blue: Byte, l: Link): (e: Exchange)
    ensures !Delivers(l) ==> e == Cut([], l)
    ensures Delivers(l) ==> e.written == [1, red, green, blue, Checksum([red, green, blue])]
  {
    if !Delivers(l) then Cut([], l)
    else Replied([1, red, green, blue, Checksum([red, green, blue])], AfterWrite(l))
  }

  /** Command 3: the command byte, the LED count twice, then, only once the
      tile has answered Next, the payload followed by its checksum; four
      writes, each of which can cut the command short. */
  function SpecificLedsExchange(payload: seq<Byte>, l: Link): (e: Exchange)
    requires |payload| <= 5 * MaxLeds
    ensures e.written <= [3, |payload| / 5, |payload| / 5] + payload + [Checksum(payload)]
    ensures e.written == [] <==> !Delivers(l)
    ensures e.link.broken == l.broken
  {
    var count := |payload| / 5;
    if !Delivers(l) then Cut([], l)
    else
      var l1 := AfterWrite(l);
      if !Delivers(l1) then Cut([3], l1)
      else
        var l2 := AfterWrite(l1);
        var first := ReplyStatus(l2.inbox);
        var l3 := AfterRead(l2, 1);
        if first != Next then Exchange([3, count, count], first, l3)
        else if !Delivers(l3) then Cut([3, count, count], l3)
        else Replied([3, count, count] + payload + [Checksum(payload)], AfterWrite(l3))
  }

  /** Command 2: the command byte, then either the whole frame in wiring
      order with its checksum or, when the optimised path is asked for and
      fewer than 100 LEDs changed, the changed LEDs through command 3.
      `changed` is the list of changed LEDs (five bytes each) that the delta
      extraction yields. */
  function UpdateAllExchange(frame: seq<Byte>, optimize: bool, changed: seq<Byte>, l: Link): (e: Exchange)
    requires |frame| <= FrameSize
    ensures e.written == [] <==> !Delivers(l)
    ensures e.written != [] ==> e.written[0] == 2
    ensures !Delivers(l) ==> e.status == ErrorInternal && e.link == AfterWrite(l)
    ensures e.link.broken == l.broken
  {
    if !Delivers(l) then Cut([], l)
    else
      var l1 := AfterWrite(l);
      if optimize && |changed| / 5 < 100 then
        var e := SpecificLedsExchange(changed, l1);
        Exchange([2] + e.written, e.status, e.link)
      else if !Delivers(l1) then Cut([2], l1)
      else Replied([2] + Scatter(frame, 0) + [Checksum(frame)], AfterWrite(l1))
  }

  /** Command 5: set the identifier, sent twice, in one write. */
  function SetIdentifierExchange(identifier: Byte, l: Link): (e: Exchange)
    requires identifier != 0
    ensures !Delivers(l) ==> e == Cut([], l)
    ensures Delivers(l) ==>
      && e.written == [5, identifier, identifier]
      && e.status == ReplyStatus(l.inbox)
      && e.link == AfterRead(AfterWrite(l), 1)
  {
    if !Delivers(l) then Cut([], l)
    else Replied([5, identifier, identifier], AfterWrite(l))
  }

  /** The full-length form of each command, once every write goes through:
      a link with no fault ahead and the device there. */
  predicate Steady(l: Link)
  {
    !l.broken && l.faults == []
  }

  /** A status code written as its byte is read back as that status. */
  lemma ReplyStatusOfCode(s: StatusCode, rest: seq<Byte>)
    ensures ReplyStatus([AsU8(s)] + rest) == s
    ensures Remaining([AsU8(s)] + rest, 1) == rest
  {
    EncodeDecode(s);
  }

  /** Command 1 ends with the sum of its three colour bytes modulo 256. */
  lemma SolidColorChecksum(red: Byte, green: Byte, blue: Byte, l: Link)
    requires Delivers(l)
    ensures SolidColorExchange(red, green, blue, l).written[4] == (red + green + blue) % 256
  {
    assert [red, green, blue][..2] == [red, green];
    assert [red, green][..1] == [red];
    assert [red][..0] == [];
    assert Sum([red]) == red;
    assert Sum([red, green]) == red + green;
    assert Sum([red, green, blue]) == red + green + blue;
  }

  /** Command 3 writes a prefix of its full transmission: the command byte,
      the LED count twice, the payload and its checksum. It gets past the
      header exactly when the first two writes go through and the tile
      answers Next, and then sends everything unless the payload write
      fails; every write that fails ends it with ErrorInternal. */
  lemma SpecificLedsNeedNext(payload: seq<Byte>, l: Link)
    requires |payload| <= 5 * MaxLeds
    ensures var e := SpecificLedsExchange(payload, l);
      var count := |payload| / 5;
      var full := [3, count, count] + payload + [Checksum(payload)];
      var l2 := AfterWrite(AfterWrite(l));
      && e.written <= full
      && (|e.written| > 3 <==>
            Delivers(l) && Delivers(AfterWrite(l)) && |l.inbox| >= 1 && l.inbox[0] == AsU8(Next)
            && Delivers(AfterRead(l2, 1)))
      && (|e.written| > 3 ==> e.written == full && e.link == AfterRead(AfterWrite(AfterRead(l2, 1)), 1))
      && (|e.written| < 3 ==> e.status == ErrorInternal && e.link.inbox == l.inbox)
  {
    if |l.inbox| >= 1 && l.inbox[0] in KnownCodes {
      DecodeEncode(l.inbox[0]);
    }
  }

  /** On a steady link, command 3 writes its header and, exactly when the
      tile answered Next, the payload and its checksum, and returns the
      tile's last reply. */
  lemma SteadySpecificLeds(payload: seq<Byte>, l: Link)
    requires |payload| <= 5 * MaxLeds && Steady(l)
    ensures var e := SpecificLedsExchange(payload, l);
      var count := |payload| / 5;
      && (ReplyStatus(l.inbox) != Next ==>
            e == Exchange([3, count, count], ReplyStatus(l.inbox), AfterRead(l, 1)))
      && (ReplyStatus(l.inbox) == Next ==>
            e == Exchange([3, count, count] + payload + [Checksum(payload)],
                          ReplyStatus(Remaining(l.inbox, 1)), AfterRead(AfterRead(l, 1), 1)))
  {
  }

  /** The full-frame form of command 2, once both of its writes go through:
      the command byte, each logical byte at one past its wiring offset,
      and the checksum of the logical bytes last. */
  lemma FullFrameLayout(frame: seq<Byte>, optimize: bool, changed: seq<Byte>, l: Link)
    requires |frame| <= FrameSize
    requires !(optimize && |changed| / 5 < 100)
    requires Delivers(l) && Delivers(AfterWrite(l))
    ensures var w := UpdateAllExchange(frame, optimize, changed, l).written;
      && |w| == FrameSize + 2 && w[0] == 2 && w[FrameSize + 1] == Checksum(frame)
      && (forall i :: 0 <= i < |frame| ==> w[1 + PhysicalOffset(i)] == frame[i])
  {
    ScatterPlaces(frame, 0);
  }

  /** The running `u8` sum of command 2 and command 3 as written, in a
      debug build: `+=` stops the program on the first overflow (None). */
  function CheckedSum(s: seq<Byte>): (r: Option<Byte>)
  {
    if s == [] then Some(0)
    else match CheckedSum(s[..|s| - 1])
      case None => None
      case Some(crc) => if crc + s[|s| - 1] > 255 then None else Some(crc + s[|s| - 1])
  }

  /** The checked sum survives exactly the buffers whose byte sum fits in a
      byte, and then agrees with the wrapping checksum. */
  lemma {:induction false} CheckedSumFits(s: seq<Byte>)
    ensures CheckedSum(s).Some? <==> Sum(s) <= 255
    ensures CheckedSum(s).Some? ==> CheckedSum(s).value == Sum(s) == Checksum(s)
  {
    if s != [] {
      var init := s[..|s| - 1];
      CheckedSumFits(init);
      SumNonNegative(init);
    }
  }

  /** Two bytes are enough to overflow: a pixel channel at 255 followed by
      any non-zero byte stops the command, while the wrapping checksum the
      tile expects is defined for every buffer. */
  lemma CheckedSumOverflows()
    ensures CheckedSum([255, 1]) == None
    ensures Checksum([255, 1]) == 0
  {
    assert [255, 1][..1] == [255];
    assert [255][..0] == [];
  }

  /** The length check of command 3 as written: exactly 255 LEDs. */
  function SpecificLedsLengthAsWritten(payloadLength: nat): (ok: bool)
    ensures ok <==> payloadLength / 5 == MaxLeds && payloadLength % 5 == 0
  {
    payloadLength == 255 * 5
  }

  /** The length check command 3 is meant to make: at most 255 LEDs, which
      is also what keeps the LED count inside one byte. */
  function SpecificLedsLength(payloadLength: nat): (ok: bool)
    ensures ok <==> payloadLength / 5 <= MaxLeds && (payloadLength / 5 < MaxLeds || payloadLength % 5 == 0)
  {
    payloadLength <= 255 * 5
  }

  /** Every payload the optimised path of command 2 hands to command 3 has
      fewer than 100 LEDs, so the check as written stops the program on
      each of them, while the intended check lets all of them through. */
  lemma DeltaPayloadsFailLengthCheck(changed: seq<Byte>)
    requires |changed| / 5 < 100
    ensures !SpecificLedsLengthAsWritten(|changed|)
    ensures SpecificLedsLength(|changed|)
  {
  }

  /** The result of opening a tile. */
  datatype InitResult = Initialized(tile: Tile) | InitFailed(error: InitError)

  /** Opens a tile on `port` (null when the port could not be opened) at
      clock time `now`, and keeps it only if it greets with "Ellie". */
  method Init(port: Port?, now: nat) returns (r: InitResult)
    modifies port
    ensures port == null ==> r == InitFailed(FailedToOpenConnection)
    ensures port != null ==>
      && (r.Initialized? <==> Greeting(old(port.inbox)))
      && (r.InitFailed? ==> r.error == NotAnEllieTile)
      && port.State() == AfterRead(old(port.State()), 5)
      && port.sent == old(port.sent)
    ensures r.Initialized? ==>
      && fresh(r.tile) && r.tile.Valid() && r.tile.port == port
      && r.tile.frameTime == DefaultFrameTime && r.tile.lastSerialWriteTime == now
      && r.tile.previousFramebuffer == seq(FrameSize, _ => 0)
  {
    if port == null {
      return InitFailed(FailedToOpenConnection);
    }
    var tile := new Tile(port, now);
    var magicNumbers := tile.Command6MagicNumbers();
    if magicNumbers != Magic {
      r := InitFailed(NotAnEllieTile);
    } else {
      r := Initialized(tile);
    }
  }

  class Tile {
    var frameTime: nat
    var lastSerialWriteTime: nat
    const port: Port
    const indexConverterVector: seq<int>
    var previousFramebuffer: seq<Byte>

    /** The conversion table is the wiring table. It depends on constant
        fields only, so no command can break it. */
    ghost predicate Valid()
    {
      indexConverterVector == WiringTable()
    }

    /** A tile on an opened port, before the greeting is checked. */
    constructor (port: Port, now: nat)
      ensures Valid() && this.port == port
      ensures frameTime == DefaultFrameTime && lastSerialWriteTime == now
      ensures previousFramebuffer == seq(FrameSize, _ => 0)
    {
      var conversion := Util.GenerateIndexConversionVector();
      this.port := port;
      frameTime := DefaultFrameTime;
      lastSerialWriteTime := now;
      indexConverterVector := conversion[..];
      assert conversion[..] == WiringTable();
      previousFramebuffer := seq(FrameSize, _ => 0);
    }

    /** Reads a one-byte status reply. */
    method ReadStatus() returns (status: StatusCode)
      modifies port
      ensures status == ReplyStatus(old(port.inbox))
      ensures port.State() == AfterRead(old(port.State()), 1)
      ensures port.sent == old(port.sent)
    {
      var reply := port.Read(1);
      if reply.None? || New(reply.value[0]).None? {
        status := ErrorInternal;
      } else {
        status := New(reply.value[0]).value;
      }
    }

    /** Command 0: show the frame last sent. `now` is the clock reading on
        entry; the call sleeps `wait` first, so that a write never follows
        the previous show's write by less than the frame time. The write
        itself is taken to be instantaneous. */
    method Command0Show(now: nat) returns (status: StatusCode, wait: nat)
      requires now >= lastSerialWriteTime
      modifies this, port
      ensures wait == PacingDelay(now - old(lastSerialWriteTime), frameTime)
      ensures now + wait >= old(lastSerialWriteTime) + frameTime
      ensures !Delivers(old(port.State())) ==>
        status == ErrorInternal && lastSerialWriteTime == old(lastSerialWriteTime)
        && port.sent == old(port.sent)
      ensures Delivers(old(port.State())) ==>
        status == Ok && lastSerialWriteTime == now + wait && port.sent == old(port.sent) + [0]
      ensures port.State() == AfterWrite(old(port.State()))
      ensures frameTime == old(frameTime) && previousFramebuffer == old(previousFramebuffer)
    {
      var timespan := now - lastSerialWriteTime;
      wait := 0;
      if timespan < frameTime {
        wait := frameTime - timespan;
      }
      var ok := port.Write([0]);
      if !ok {
        status := ErrorInternal;
      } else {
        lastSerialWriteTime := now + wait;
        status := Ok;
      }
    }

    /** Command 1: one colour on every LED of the tile. */
    method Command1SolidColor(red: Byte, green: Byte, blue: Byte) returns (status: StatusCode)
      modifies port
      ensures var e := SolidColorExchange(red, green, blue, old(port.State()));
        port.sent == old(port.sent) + e.written && status == e.status && port.State() == e.link
    {
      var crc := WrappingAdd(WrappingAdd(red, green), blue);
      assert crc == Checksum([red, green, blue]) by {
        WrappingFoldIsChecksum([], 0);
        assert [] + [red] == [red];
        WrappingFoldIsChecksum([red], red);
        assert [red] + [green] == [red, green];
        WrappingFoldIsChecksum([red, green], WrappingAdd(red, green));
        assert [red, green] + [blue] == [red, green, blue];
      }
      var ok := port.Write([1, red, green, blue, crc]);
      if !ok {
        return ErrorInternal;
      }
      status := ReadStatus();
    }

    /** Command 2: a whole frame. The logical bytes of `frameBufferUnordered`
        are placed in wiring order and summed into the checksum that ends
        the transmission. With `optimize`, the LEDs that changed (`changed`,
        as the delta extraction returns them) go through command 3 instead
        when there are fewer than 100 of them. */
    method Command2UpdateAll(frameBufferUnordered: seq<Byte>, optimize: bool, changed: seq<Byte>)
      returns (status: StatusCode)
      requires Valid() && |frameBufferUnordered| <= FrameSize
      modifies port
      ensures var e := UpdateAllExchange(frameBufferUnordered, optimize, changed, old(port.State()));
        port.sent == old(port.sent) + e.written && status == e.status && port.State() == e.link
    {
      ghost var l := port.State();
      var ok := port.Write([2]);
      if !ok {
        return ErrorInternal;
      }
      ghost var l1 := port.State();
      ghost var sent1 := port.sent;
      assert l1 == AfterWrite(l) && sent1 == old(port.sent) + [2];
      var frameBuffer, crc := ArrangeFrame(frameBufferUnordered);

      if optimize && |changed| / 5 < 100 {
        status := Command3UpdateSpecificLed(changed);
        ghost var e := SpecificLedsExchange(changed, l1);
        assert port.sent == sent1 + e.written && status == e.status && port.State() == e.link;
        assert sent1 + e.written == old(port.sent) + ([2] + e.written);
        return;
      }

      frameBuffer[FrameSize] := crc;
      var transmission := frameBuffer[..];
      assert transmission == Scatter(frameBufferUnordered, 0) + [crc] by {
        assert transmission == frameBuffer[..FrameSize] + [crc];
      }
      ok := port.Write(transmission);
      if !ok {
        return ErrorInternal;
      }
      status := ReadStatus();
    }

    /** The first half of command 2: each logical byte moved to its place
        in the 1201-byte transmission buffer, and the running checksum. */
    method ArrangeFrame(frameBufferUnordered: seq<Byte>) returns (frameBuffer: array<Byte>, crc: Byte)
      requires Valid() && |frameBufferUnordered| <= FrameSize
      ensures fresh(frameBuffer) && frameBuffer.Length == FrameSize + 1
      ensures frameBuffer[..FrameSize] == Scatter(frameBufferUnordered, 0)
      ensures frameBuffer[FrameSize] == 0
      ensures crc == Checksum(frameBufferUnordered)
    {
      frameBuffer := new Byte[FrameSize + 1](_ => 0);
      crc := 0;
      ScatterBlank<Byte>([], 0);
      assert frameBuffer[..FrameSize] == Scatter([], 0);
      for i := 0 to |frameBufferUnordered|
        modifies frameBuffer
        invariant crc == Checksum(frameBufferUnordered[..i])
        invariant frameBuffer[..FrameSize] == Scatter(frameBufferUnordered[..i], 0)
        invariant frameBuffer[FrameSize] == 0
      {
        var byte := frameBufferUnordered[i];
        var k := indexConverterVector[i];
        assert k < FrameSize
          && Scatter(frameBufferUnordered[..i + 1], 0) == Scatter(frameBufferUnordered[..i], 0)[k := byte]
          && WrappingAdd(crc, byte) == Checksum(frameBufferUnordered[..i + 1])
        by {
          PrefixStep(frameBufferUnordered, i);
          WrappingFoldIsChecksum(frameBufferUnordered[..i], crc);
          ScatterAppend(frameBufferUnordered[..i], 0, byte);
        }
        crc := WrappingAdd(crc, byte);
        frameBuffer[k] := byte;
      }
      assert frameBufferUnordered[..|frameBufferUnordered|] == frameBufferUnordered;
    }

    /** Command 3: up to 255 LEDs, five bytes each (see Findings for the
        length check the source performs). */
    method Command3UpdateSpecificLed(frameBuffer: seq<Byte>) returns (status: StatusCode)
      requires SpecificLedsLength(|frameBuffer|)
      modifies port
      ensures var e := SpecificLedsExchange(frameBuffer, old(port.State()));
        port.sent == old(port.sent) + e.written && status == e.status && port.State() == e.link
    {
      ghost var l := port.State();
      var ok := port.Write([3]);
      if !ok {
        return ErrorInternal;
      }
      var ledCount := |frameBuffer| / 5;
      ok := port.Write([ledCount, ledCount]);
      if !ok {
        return ErrorInternal;
      }
      ghost var l2 := port.State();
      assert l2 == AfterWrite(AfterWrite(l));
      var first := ReadStatus();
      if first != Next {
        return first;
      }
      var crc := PayloadChecksum(frameBuffer);
      ok := port.Write(frameBuffer + [crc]);
      if !ok {
        return ErrorInternal;
      }
      status := ReadStatus();
    }

    /** The checksum loop of command 3. */
    static method PayloadChecksum(payload: seq<Byte>) returns (crc: Byte)
      ensures crc == Checksum(payload)
    {
      crc := 0;
      for i := 0 to |payload|
        invariant crc == Checksum(payload[..i])
      {
        WrappingFoldIsChecksum(payload[..i], crc);
        assert payload[..i + 1] == payload[..i] + [payload[i]];
        crc := WrappingAdd(crc, payload[i]);
      }
      assert payload[..|payload|] == payload;
    }

    /** Command 4: ask the tile for its identifier. */
    method Command4GetTileIdentifier() returns (status: StatusCode, identifier: Byte)
      modifies port
      ensures !Delivers(old(port.State())) ==>
        status == ErrorInternal && identifier == 0
        && port.sent == old(port.sent) && port.State() == AfterWrite(old(port.State()))
      ensures Delivers(old(port.State())) ==>
        && port.sent == old(port.sent) + [4]
        && port.State() == AfterRead(AfterWrite(old(port.State())), 3)
        && (|old(port.inbox)| < 3 ==> status == ErrorInternal && identifier == 0)
        && (|old(port.inbox)| >= 3 ==> (status, identifier) == DecodeIdentifier(old(port.inbox)[..3]))
    {
      var ok := port.Write([4]);
      if !ok {
        return ErrorInternal, 0;
      }
      var reply := port.Read(3);
      if reply.None? {
        return ErrorInternal, 0;
      }
      var readBuf := reply.value;
      if New(readBuf[2]).None? {
        status, identifier := ErrorInternal, 0;
      } else if readBuf[0] != readBuf[1] {
        status, identifier := NonMatchingCRC, 0;
      } else {
        status, identifier := New(readBuf[2]).value, readBuf[0];
      }
    }

    /** Command 5: give the tile a new identifier; identifier 0 is refused
        before anything is written. */
    method Command5SetTileIdentifier(identifier: Byte) returns (status: StatusCode)
      modifies port
      ensures identifier == 0 ==>
        status == Error && port.sent == old(port.sent) && port.State() == old(port.State())
      ensures identifier != 0 ==>
        var e := SetIdentifierExchange(identifier, old(port.State()));
        port.sent == old(port.sent) + e.written && status == e.status && port.State() == e.link
    {
      if identifier == 0 {
        return Error;
      }
      var ok := port.Write([5, identifier, identifier]);
      if !ok {
        return ErrorInternal;
      }
      status := ReadStatus();
    }

    /** Command 6: the five greeting bytes, or five zeros when they do not
        arrive in time. Nothing is written. */
    method Command6MagicNumbers() returns (magicNumbers: seq<Byte>)
      modifies port
      ensures |old(port.inbox)| >= 5 ==> magicNumbers == old(port.inbox)[..5]
      ensures |old(port.inbox)| < 5 ==> magicNumbers == [0, 0, 0, 0, 0]
      ensures port.State() == AfterRead(old(port.State()), 5)
      ensures port.sent == old(port.sent)
    {
      var reply := port.Read(5);
      if reply.None? {
        magicNumbers := [0, 0, 0, 0, 0];
      } else {
        magicNumbers := reply.value;
      }
    }
  }
}
