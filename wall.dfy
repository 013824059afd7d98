/** The wall: the tiles the core library drives together, how they are
    found and placed, and how one call fans out to every tile. */
module Wall {
  import opened Common
  import opened StatusCodes
  import opened Wiring
  import opened Serial
  import opened TileDriver
  import Util

  /** The number of tiles of a full wall. */
  const WallTiles: nat := 6

  /** Why building the wall stops the program. */
  datatype Panic =
    | IdentifierOutOfRange(identifier: Byte)  // the slot `identifier - 1` does not exist
    | MissingTiles(found: nat)                // fewer than six tiles were placed
    | IndexOutOfBounds(index: nat)            // assignment past the end of a vector
    | NotImplemented                          // the single tile failed to open

  datatype Outcome = Built(wall: ContourWallCore) | Panicked(panic: Panic)

  /** A serial port on the machine: whether it is a USB port, and the
      connection to it, null when it cannot be opened. */
  datatype Candidate = Candidate(usb: bool, port: Port?)

  /** The identifier a tile on a link reports when it is opened and asked:
      the greeting, then a three-byte reply to command 4 whose two
      identifier bytes agree and whose status is Ok. */
  function IdentifierReply(l: Link): (r: Option<Byte>)
    ensures r.Some? <==>
      && Delivers(l) && |l.inbox| >= 8 && l.inbox[..5] == Magic
      && l.inbox[5] == l.inbox[6] && l.inbox[7] == AsU8(Ok)
    ensures r.Some? ==> r.value == l.inbox[5]
  {
    if !Delivers(l) || |l.inbox| < 8 || l.inbox[..5] != Magic then None
    else
      var reply := DecodeIdentifier(l.inbox[5..8]);
      if reply.0 == Ok then Some(reply.1) else None
  }

  /** What a candidate port contributes to the search: the identifier its
      tile reports, or None when it is skipped. */
  function ReportOf(c: Candidate): (r: Option<Byte>)
    reads c.port
    ensures r.Some? ==> c.usb && c.port != null && Greeting(c.port.inbox) && Delivers(c.port.State())
  {
    if !c.usb || c.port == null then None else IdentifierReply(c.port.State())
  }

  /** Where the search places the tiles: slot k holds the last candidate
      whose tile reported identifier k + 1, or nothing. None when a report
      lies outside 1..6, which stops the program. */
  function Placement(reports: seq<Option<Byte>>): (r: Option<seq<Option<nat>>>)
    ensures r.Some? ==> |r.value| == WallTiles
    ensures r.Some? ==> forall k :: 0 <= k < WallTiles && r.value[k].Some? ==> r.value[k].value < |reports|
  {
    if reports == [] then Some(seq(WallTiles, _ => None))
    else
      var last := reports[|reports| - 1];
      match Placement(reports[..|reports| - 1])
      case None => None
      case Some(slots) =>
        if last.None? then Some(slots)
        else if last.value == 0 || last.value > WallTiles then None
        else Some(slots[last.value - 1 := Some(|reports| - 1)])
  }

  /** What the search achieves: it stops exactly when some report lies
      outside 1..6; otherwise slot k names the last candidate reporting
      k + 1, and stays empty when no candidate reports k + 1. */
  lemma {:induction false} PlacementMeaning(reports: seq<Option<Byte>>)
    ensures Placement(reports).Some? <==>
      forall j :: 0 <= j < |reports| && reports[j].Some? ==> 1 <= reports[j].value <= WallTiles
    ensures Placement(reports).Some? ==> forall k :: 0 <= k < WallTiles && Placement(reports).value[k].Some? ==>
      && Placement(reports).value[k].value < |reports| && reports[Placement(reports).value[k].value] == Some(k + 1)
      && forall j :: Placement(reports).value[k].value < j < |reports| ==> reports[j] != Some(k + 1)
    ensures Placement(reports).Some? ==> forall k :: 0 <= k < WallTiles && Placement(reports).value[k].None? ==>
      forall j :: 0 <= j < |reports| ==> reports[j] != Some(k + 1)
  {
    if reports != [] {
      var n := |reports| - 1;
      var init := reports[..n];
      PlacementMeaning(init);
      assert forall j :: 0 <= j < n ==> init[j] == reports[j];
    }
  }

  /** The number of filled slots. */
  function Found<T>(slots: seq<Option<T>>): (n: nat)
    ensures n <= |slots|
    ensures n == |slots| <==> forall k :: 0 <= k < |slots| ==> slots[k].Some?
  {
    if slots == [] then 0
    else Found(slots[..|slots| - 1]) + (if slots[|slots| - 1].Some? then 1 else 0)
  }

  /** The filled slots in order, as collecting a vector of options keeps
      them: as many as are filled, and slot for slot when all are. */
  function Flatten<T>(slots: seq<Option<T>>): (items: seq<T>)
    ensures |items| == Found(slots)
    ensures |items| == |slots| ==> forall k :: 0 <= k < |slots| ==> slots[k] == Some(items[k])
  {
    if slots == [] then []
    else
      var init := Flatten(slots[..|slots| - 1]);
      var last := slots[|slots| - 1];
      if last.Some? then init + [last.value] else init
  }

  /** Two slot lists filled in the same places count the same. */
  lemma {:induction false} FoundSamePlaces<S, T>(a: seq<Option<S>>, b: seq<Option<T>>)
    requires |a| == |b|
    requires forall k :: 0 <= k < |a| ==> (a[k].Some? <==> b[k].Some?)
    ensures Found(a) == Found(b)
  {
    if a != [] {
      FoundSamePlaces(a[..|a| - 1], b[..|b| - 1]);
    }
  }

  /** The frames `update_all` hands to the tiles, from a buffer holding at
      least 1200 bytes per tile: one tile takes the first 1200 bytes, six
      tiles take the six frames of the split; any other count is a state
      the library treats as unreachable (None). */
  function Dispatch(buffer: seq<Byte>, tileCount: nat): (frames: Option<seq<seq<Byte>>>)
    requires |buffer| >= FrameSize * tileCount
    ensures frames.Some? <==> tileCount == 1 || tileCount == WallTiles
    ensures frames.Some? ==> |frames.value| == tileCount
    ensures frames.Some? ==> forall i :: 0 <= i < tileCount ==> |frames.value[i]| == FrameSize
  {
    if tileCount == 1 then Some([buffer[..FrameSize]])
    else if tileCount == WallTiles then
      Util.SplitFullSizes(buffer[..Util.CompositeSize]);
      Some(Util.Split(buffer[..Util.CompositeSize]))
    else None
  }

  /** Which composite byte tile i of a full wall receives: frame byte p of
      tile i is byte Source(i, p) of the buffer. */
  lemma DispatchSixTiles(buffer: seq<Byte>, i: nat, p: nat)
    requires |buffer| >= FrameSize * WallTiles && i < WallTiles && p < FrameSize
    ensures Dispatch(buffer, WallTiles).Some?
    ensures Dispatch(buffer, WallTiles).value[i][p] == buffer[Util.Source(i, p)]
  {
    var fb := buffer[..Util.CompositeSize];
    Util.SplitFullSizes(fb);
    Util.SplitAt(fb, i, p);
  }

  /** The ports of a list of candidates are distinct connections. */
  ghost predicate DistinctPorts(candidates: seq<Candidate>)
  {
    forall i, j :: 0 <= i < j < |candidates| && candidates[i].port != null ==>
      candidates[i].port != candidates[j].port
  }

  ghost function CandidatePorts(candidates: seq<Candidate>): set<Port?>
  {
    set j | 0 <= j < |candidates| :: candidates[j].port
  }

  /** One turn of the search in `new`: skip a port that is not USB, open
      the tile, and ask it for its identifier. `reported` is the identifier
      when the tile answered Ok, and the tile is returned with it. */
  method Probe(candidate: Candidate, now: nat) returns (tile: Tile?, reported: Option<Byte>)
    modifies candidate.port
    ensures reported == old(ReportOf(candidate))
    ensures reported.Some? ==> tile != null && fresh(tile) && tile.Valid() && tile.port == candidate.port
  {
    tile, reported := null, None;
    if !candidate.usb {
      return;
    }
    var init := Init(candidate.port, now);
    if init.InitFailed? {
      return;
    }
    tile := init.tile;
    var status, identifier := tile.Command4GetTileIdentifier();
    if status == Ok {
      reported := Some(identifier);
    }
  }

  /** The search loop of `new`: probes the candidates in order and puts
      each identified tile in its slot, a later tile replacing an earlier
      one. Stops at the first identifier outside 1..6 (`outOfRange`). */
  method PlaceTiles(candidates: seq<Candidate>, ghost reports: seq<Option<Byte>>, now: nat)
    returns (slots: seq<Option<Tile>>, outOfRange: Option<Byte>)
    requires DistinctPorts(candidates) && |reports| == |candidates|
    requires forall j :: 0 <= j < |candidates| ==> ReportOf(candidates[j]) == reports[j]
    modifies CandidatePorts(candidates)
    ensures outOfRange.Some? ==>
      Placement(reports).None? && (outOfRange.value == 0 || outOfRange.value > WallTiles)
    ensures outOfRange.None? ==>
      && Placement(reports).Some? && |slots| == WallTiles
      && forall s :: 0 <= s < WallTiles ==>
           && (slots[s].Some? <==> Placement(reports).value[s].Some?)
           && (slots[s].Some? ==> slots[s].value.port == candidates[Placement(reports).value[s].value].port)
    ensures forall t :: Some(t) in slots ==> fresh(t) && t.Valid()
  {
    slots := [None, None, None, None, None, None];
    outOfRange := None;
    ghost var placed: seq<Option<nat>> := seq(WallTiles, _ => None);
    for k := 0 to |candidates|
      invariant Placement(reports[..k]) == Some(placed)
      invariant |slots| == WallTiles
      invariant forall s :: 0 <= s < WallTiles ==> (slots[s].Some? <==> placed[s].Some?)
      invariant forall t :: Some(t) in slots ==> fresh(t) && t.Valid()
      invariant forall s :: 0 <= s < WallTiles && slots[s].Some? ==>
        placed[s].value < |candidates| && slots[s].value.port == candidates[placed[s].value].port
      invariant forall j :: k <= j < |candidates| ==> ReportOf(candidates[j]) == reports[j]
    {
      assert reports[..k + 1][..k] == reports[..k];
      var tile, reported := Probe(candidates[k], now);
      if reported.Some? {
        var identifier := reported.value;
        if identifier == 0 || identifier > WallTiles {
          PlacementMeaning(reports);
          return slots, Some(identifier);
        }
        slots := slots[identifier - 1 := Some(tile)];
        placed := placed[identifier - 1 := Some(k)];
      }
    }
    assert reports[..|candidates|] == reports;
  }

  /** `new`: opens every USB candidate, keeps the tiles that greet, asks each
      for its identifier and puts the tile reporting k in slot k - 1. The
      wall is built only when all six slots are filled. `reports` is what
      each candidate reported, as `ReportOf` reads it before the call. */
  method New(candidates: seq<Candidate>, now: nat) returns (r: Outcome, ghost reports: seq<Option<Byte>>)
    requires DistinctPorts(candidates)
    modifies CandidatePorts(candidates)
    ensures |reports| == |candidates|
    ensures forall j :: 0 <= j < |candidates| ==> reports[j] == old(ReportOf(candidates[j]))
    ensures Placement(reports).None? ==> r.Panicked? && r.panic.IdentifierOutOfRange?
    ensures Placement(reports).Some? ==>
      if Found(Placement(reports).value) == WallTiles then r.Built?
      else r == Panicked(MissingTiles(Found(Placement(reports).value)))
    ensures r.Built? ==>
      && fresh(r.wall) && r.wall.Valid() && |r.wall.tiles| == WallTiles
      && Placement(reports).Some?
      && forall k :: 0 <= k < WallTiles ==>
           Placement(reports).value[k].Some? && fresh(r.wall.tiles[k])
           && r.wall.tiles[k].port == candidates[Placement(reports).value[k].value].port
  {
    reports := [];
    for j := 0 to |candidates|
      invariant |reports| == j
      invariant forall i :: 0 <= i < j ==> reports[i] == ReportOf(candidates[i])
    {
      reports := reports + [ReportOf(candidates[j])];
    }

    var slots, outOfRange := PlaceTiles(candidates, reports, now);
    if outOfRange.Some? {
      return Panicked(IdentifierOutOfRange(outOfRange.value)), reports;
    }
    var tiles := Flatten(slots);
    FoundSamePlaces(slots, Placement(reports).value);
    if |tiles| != WallTiles {
      return Panicked(MissingTiles(|tiles|)), reports;
    }
    PlacementMeaning(reports);
    var wall := new ContourWallCore(tiles);
    r := Built(wall);
  }

  /** Whether the port holds a tile that greets with "Ellie" on opening. */
  function Greets(port: Port?): bool
    reads port
  {
    port != null && Greeting(port.inbox)
  }

  /** The elements of `xs` whose flag in `keep` is set, in order. */
  function Kept<T>(xs: seq<T>, keep: seq<bool>): (kept: seq<T>)
    requires |keep| == |xs|
    ensures |kept| <= |xs|
  {
    if xs == [] then []
    else
      var init := Kept(xs[..|xs| - 1], keep[..|keep| - 1]);
      if keep[|keep| - 1] then init + [xs[|xs| - 1]] else init
  }

  /** With every flag set, everything is kept. */
  lemma {:induction false} KeptAll<T>(xs: seq<T>, keep: seq<bool>)
    requires |keep| == |xs| && forall i :: 0 <= i < |keep| ==> keep[i]
    ensures Kept(xs, keep) == xs
  {
    if xs != [] {
      var n := |xs| - 1;
      KeptAll(xs[..n], keep[..n]);
      assert xs[..n] + [xs[n]] == xs;
    }
  }

  /** A value that no kept element equals is not kept. */
  lemma {:induction false} KeptExcludes<T>(xs: seq<T>, keep: seq<bool>, y: T)
    requires |keep| == |xs|
    requires forall i :: 0 <= i < |xs| && keep[i] ==> xs[i] != y
    ensures y !in Kept(xs, keep)
  {
    if xs != [] {
      KeptExcludes(xs[..|xs| - 1], keep[..|keep| - 1], y);
    }
  }

  /** Keeping elements that differ from every later element yields a list
      without repetitions. */
  lemma {:induction false} KeptDistinct<T>(xs: seq<T>, keep: seq<bool>)
    requires |keep| == |xs|
    requires forall i, j :: 0 <= i < j < |xs| && keep[i] ==> xs[i] != xs[j]
    ensures forall a, b :: 0 <= a < b < |Kept(xs, keep)| ==> Kept(xs, keep)[a] != Kept(xs, keep)[b]
  {
    if xs != [] {
      var n := |xs| - 1;
      KeptDistinct(xs[..n], keep[..n]);
      if keep[n] {
        KeptExcludes(xs[..n], keep[..n], xs[n]);
      }
    }
  }

  /** `new_with_ports` as written: the tiles go into a vector created with
      room for six but holding none, by index, so the first port that
      greets stops the program. Ports that do not greet are skipped. */
  method NewWithPortsAsWritten(ports: seq<Port?>, now: nat) returns (r: Outcome)
    requires |ports| == WallTiles
    requires forall i, j :: 0 <= i < j < |ports| && ports[i] != null ==> ports[i] != ports[j]
    modifies set i | 0 <= i < |ports| :: ports[i]
    ensures r.Built? <==> forall i :: 0 <= i < WallTiles ==> !old(Greets(ports[i]))
    ensures r.Built? ==> r.wall.tiles == []
    ensures r.Panicked? ==>
      && r.panic.IndexOutOfBounds? && r.panic.index < WallTiles
      && old(Greets(ports[r.panic.index]))
      && forall i :: 0 <= i < r.panic.index ==> !old(Greets(ports[i]))
  {
    var tiles: seq<Tile> := [];
    for i := 0 to WallTiles
      invariant tiles == []
      invariant forall j :: 0 <= j < i ==> !old(Greets(ports[j]))
      invariant forall j :: i <= j < WallTiles ==> Greets(ports[j]) == old(Greets(ports[j]))
    {
      var init := Init(ports[i], now);
      if init.InitFailed? {
        continue;
      }
      if i >= |tiles| {
        return Panicked(IndexOutOfBounds(i));
      }
    }
    var wall := new ContourWallCore(tiles);
    r := Built(wall);
  }

  /** The ports of a list of tiles. */
  function PortsOf(tiles: seq<Tile>): (ports: seq<Port?>)
    ensures |ports| == |tiles| && forall k :: 0 <= k < |tiles| ==> ports[k] == tiles[k].port
  {
    seq(|tiles|, k requires 0 <= k < |tiles| => tiles[k].port as Port?)
  }

  lemma PortsOfAppend(tiles: seq<Tile>, t: Tile)
    ensures PortsOf(tiles + [t]) == PortsOf(tiles) + [t.port]
  {
  }

  /** One more element considered by `Kept`. */
  lemma KeptStep<T>(xs: seq<T>, keep: seq<bool>, i: nat)
    requires |keep| == |xs| && i < |xs|
    ensures Kept(xs[..i + 1], keep[..i + 1]) ==
      if keep[i] then Kept(xs[..i], keep[..i]) + [xs[i]] else Kept(xs[..i], keep[..i])
  {
    assert xs[..i + 1][..i] == xs[..i] && keep[..i + 1][..i] == keep[..i];
  }

  /** The loop of `new_with_ports` as evidently meant: each port that
      greets adds its tile at the end. */
  method PushGreeting(ports: seq<Port?>, ghost greets: seq<bool>, now: nat) returns (tiles: seq<Tile>)
    requires |ports| == |greets|
    requires forall i, j :: 0 <= i < j < |ports| && ports[i] != null ==> ports[i] != ports[j]
    requires forall i :: 0 <= i < |ports| ==> greets[i] == Greets(ports[i])
    modifies set i | 0 <= i < |ports| :: ports[i]
    ensures PortsOf(tiles) == Kept(ports, greets)
    ensures forall t :: t in tiles ==> fresh(t) && t.Valid()
  {
    tiles := [];
    for i := 0 to |ports|
      invariant PortsOf(tiles) == Kept(ports[..i], greets[..i])
      invariant forall t :: t in tiles ==> fresh(t) && t.Valid()
      invariant forall j :: i <= j < |ports| ==> Greets(ports[j]) == greets[j]
    {
      KeptStep(ports, greets, i);
      tiles := PushIfGreets(tiles, ports[i], now);
      assert PortsOf(tiles) == Kept(ports[..i + 1], greets[..i + 1]);
    }
    assert ports[..|ports|] == ports && greets[..|greets|] == greets;
  }

  /** One step of that loop: the tile on `port` is added at the end when
      the port greets. */
  method PushIfGreets(tiles: seq<Tile>, port: Port?, now: nat) returns (next: seq<Tile>)
    requires forall t :: t in tiles ==> t.Valid()
    modifies port
    ensures PortsOf(next) == if old(Greets(port)) then PortsOf(tiles) + [port] else PortsOf(tiles)
    ensures forall t :: t in next ==> (t in tiles || fresh(t)) && t.Valid()
  {
    next := tiles;
    var init := Init(port, now);
    if init.Initialized? {
      PortsOfAppend(tiles, init.tile);
      next := tiles + [init.tile];
    }
  }

  /** `new_with_ports` as evidently meant: the tiles that greet are pushed
      in port order, so with all six ports answering, port i drives tile i
      (top row left to right, then the bottom row). `greets` records which
      ports greeted, read before the call. */
  method NewWithPorts(ports: seq<Port?>, now: nat) returns (wall: ContourWallCore, ghost greets: seq<bool>)
    requires |ports| == WallTiles
    requires forall i, j :: 0 <= i < j < |ports| && ports[i] != null ==> ports[i] != ports[j]
    modifies set i | 0 <= i < |ports| :: ports[i]
    ensures |greets| == WallTiles && forall i :: 0 <= i < WallTiles ==> greets[i] == old(Greets(ports[i]))
    ensures fresh(wall) && wall.Valid()
    ensures PortsOf(wall.tiles) == Kept(ports, greets)
    ensures (forall i :: 0 <= i < WallTiles ==> greets[i]) ==>
      |wall.tiles| == WallTiles && forall i :: 0 <= i < WallTiles ==> wall.tiles[i].port == ports[i]
  {
    greets := [];
    for i := 0 to WallTiles
      invariant |greets| == i && forall j :: 0 <= j < i ==> greets[j] == Greets(ports[j])
    {
      greets := greets + [Greets(ports[i])];
    }
    KeptDistinct(ports, greets);
    if forall i :: 0 <= i < WallTiles ==> greets[i] {
      KeptAll(ports, greets);
    }
    var tiles := PushGreeting(ports, greets, now);
    wall := new ContourWallCore(tiles);
  }

  /** `single_new_with_port`: one tile, or a stop (`todo!`) when the port
      does not hold a greeting tile. */
  method SingleNewWithPort(port: Port?, now: nat) returns (r: Outcome)
    modifies port
    ensures r.Built? <==> old(Greets(port))
    ensures r.Panicked? ==> r.panic == NotImplemented
    ensures r.Built? ==>
      && fresh(r.wall) && r.wall.Valid() && |r.wall.tiles| == 1
      && r.wall.tiles[0].port == port && fresh(r.wall.tiles[0])
  {
    var init := Init(port, now);
    if init.InitFailed? {
      return Panicked(NotImplemented);
    }
    var wall := new ContourWallCore([init.tile]);
    r := Built(wall);
  }

  /** The wall: the tiles it drives, in slot order. */
  class ContourWallCore {
    const tiles: seq<Tile>

    ghost predicate Valid()
    {
      && (forall i :: 0 <= i < |tiles| ==> tiles[i].Valid())
      && (forall i, j :: 0 <= i < j < |tiles| ==> tiles[i].port != tiles[j].port)
    }

    ghost function Ports(): set<Port>
    {
      set i | 0 <= i < |tiles| :: tiles[i].port
    }

    constructor (tiles: seq<Tile>)
      ensures this.tiles == tiles
    {
      this.tiles := tiles;
    }

    /** `show`: command 0 on every tile, once each, at clock time `now`. */
    method Show(now: nat) returns (waits: seq<nat>)
      requires Valid()
      requires forall i :: 0 <= i < |tiles| ==> tiles[i].lastSerialWriteTime <= now
      modifies tiles, Ports()
      ensures Valid() && |waits| == |tiles|
      ensures forall i :: 0 <= i < |tiles| ==>
        && waits[i] == PacingDelay(now - old(tiles[i].lastSerialWriteTime), tiles[i].frameTime)
        && tiles[i].port.sent ==
             old(tiles[i].port.sent) + (if Delivers(old(tiles[i].port.State())) then [0] else [])
        && tiles[i].lastSerialWriteTime ==
             (if Delivers(old(tiles[i].port.State())) then now + waits[i] else old(tiles[i].lastSerialWriteTime))
        && tiles[i].port.State() == AfterWrite(old(tiles[i].port.State()))
        && tiles[i].frameTime == old(tiles[i].frameTime)
        && tiles[i].previousFramebuffer == old(tiles[i].previousFramebuffer)
    {
      waits := [];
      for i := 0 to |tiles|
        invariant Valid() && |waits| == i
        invariant forall j :: 0 <= j < |tiles| ==>
          tiles[j].frameTime == old(tiles[j].frameTime)
          && tiles[j].previousFramebuffer == old(tiles[j].previousFramebuffer)
        invariant forall j :: 0 <= j < i ==>
          && waits[j] == PacingDelay(now - old(tiles[j].lastSerialWriteTime), tiles[j].frameTime)
          && tiles[j].port.sent ==
               old(tiles[j].port.sent) + (if Delivers(old(tiles[j].port.State())) then [0] else [])
          && tiles[j].lastSerialWriteTime ==
               (if Delivers(old(tiles[j].port.State())) then now + waits[j] else old(tiles[j].lastSerialWriteTime))
          && tiles[j].port.State() == AfterWrite(old(tiles[j].port.State()))
        invariant forall j :: i <= j < |tiles| ==>
          && tiles[j].lastSerialWriteTime == old(tiles[j].lastSerialWriteTime)
          && tiles[j].port.sent == old(tiles[j].port.sent)
          && tiles[j].port.State() == old(tiles[j].port.State())
      {
        var status, wait := tiles[i].Command0Show(now);
        waits := waits + [wait];
      }
    }

    /** `solid_color`: command 1 on every tile, once each. */
    method SolidColor(red: Byte, green: Byte, blue: Byte)
      requires Valid()
      modifies Ports()
      ensures Valid()
      ensures forall i :: 0 <= i < |tiles| ==>
        var e := SolidColorExchange(red, green, blue, old(tiles[i].port.State()));
        tiles[i].port.sent == old(tiles[i].port.sent) + e.written && tiles[i].port.State() == e.link
    {
      for i := 0 to |tiles|
        invariant forall j :: 0 <= j < i ==>
          var e := SolidColorExchange(red, green, blue, old(tiles[j].port.State()));
          tiles[j].port.sent == old(tiles[j].port.sent) + e.written && tiles[j].port.State() == e.link
        invariant forall j :: i <= j < |tiles| ==>
          && tiles[j].port.sent == old(tiles[j].port.sent)
          && tiles[j].port.State() == old(tiles[j].port.State())
      {
        var status := tiles[i].Command1SolidColor(red, green, blue);
      }
    }

    /** The fan-out of `update_all`: command 2 on tile i with frame i. */
    method SendFrames(frames: seq<seq<Byte>>, optimize: bool, changed: seq<seq<Byte>>)
      requires Valid() && |frames| == |tiles| && |changed| == |tiles|
      requires forall i :: 0 <= i < |frames| ==> |frames[i]| <= FrameSize
      modifies Ports()
      ensures forall i :: 0 <= i < |tiles| ==>
        var e := UpdateAllExchange(frames[i], optimize, changed[i], old(tiles[i].port.State()));
        tiles[i].port.sent == old(tiles[i].port.sent) + e.written && tiles[i].port.State() == e.link
    {
      for i := 0 to |tiles|
        invariant forall j :: 0 <= j < i ==>
          var e := UpdateAllExchange(frames[j], optimize, changed[j], old(tiles[j].port.State()));
          tiles[j].port.sent == old(tiles[j].port.sent) + e.written && tiles[j].port.State() == e.link
        invariant forall j :: i <= j < |tiles| ==>
          && tiles[j].port.sent == old(tiles[j].port.sent)
          && tiles[j].port.State() == old(tiles[j].port.State())
      {
        var status := tiles[i].Command2UpdateAll(frames[i], optimize, changed[i]);
      }
    }

    /** `update_all`: reads 1200 bytes per tile from `buffer` and sends each
        tile its frame with command 2. `changed[i]` is what the delta
        extraction yields for tile i when `optimize` is set. Returns false
        where the library stops on its unreachable branch. */
    method UpdateAll(buffer: seq<Byte>, optimize: bool, changed: seq<seq<Byte>>) returns (completed: bool)
      requires Valid() && |buffer| >= FrameSize * |tiles| && |changed| == |tiles|
      modifies Ports()
      ensures Valid()
      ensures completed <==> Dispatch(buffer, |tiles|).Some?
      ensures completed ==> forall i :: 0 <= i < |tiles| ==>
        var e := UpdateAllExchange(Dispatch(buffer, |tiles|).value[i], optimize, changed[i], old(tiles[i].port.State()));
        tiles[i].port.sent == old(tiles[i].port.sent) + e.written && tiles[i].port.State() == e.link
    {
      var bufferSize := FrameSize * |tiles|;
      var frameBuffer := buffer[..bufferSize];
      var frames: seq<seq<Byte>>;
      if |tiles| == 1 {
        frames := [frameBuffer];
      } else if |tiles| == WallTiles {
        frames := Util.SplitFramebuffer(frameBuffer);
        Util.SplitFullSizes(frameBuffer);
      } else {
        return false;
      }
      assert frames == Dispatch(buffer, |tiles|).value;
      SendFrames(frames, optimize, changed);
      return true;
    }
  }
}
