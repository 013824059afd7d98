/** The walking-dot demo (lib/walking.py): one blue pixel on a single tile,
    moved by the arrow keys. Every key press clears the dot, moves it one
    pixel, puts it back at (0, 0) when it would leave the grid, lights it
    and shows the grid. The keyboard hook is replaced by the event handed
    to `OnArrowKey`. */
module Walking {
  import opened Common
  import opened Wiring
  import opened Serial
  import opened PyWall

  datatype EventType = KeyDown | KeyUp

  /** A keyboard event: whether the key went down or up, and its name. */
  datatype KeyEvent = KeyEvent(eventType: EventType, name: string)

  /** The blue the dot is drawn in, channel by channel. */
  function DotColor(c: nat): int
  {
    if c == 2 then 255 else 0
  }

  predicate OnGrid(loc: (int, int))
  {
    0 <= loc.0 < Side && 0 <= loc.1 < Side
  }

  /** The position a key moves the dot to, before the edge check: "up"
      and "down" change the row, "left" and "right" the column, any other
      key leaves it. */
  function Step(loc: (int, int), name: string): (next: (int, int))
    ensures next == loc
         || (next.0 == loc.0 && (next.1 == loc.1 - 1 || next.1 == loc.1 + 1))
         || (next.1 == loc.1 && (next.0 == loc.0 - 1 || next.0 == loc.0 + 1))
    ensures name != "up" && name != "down" && name != "left" && name != "right" ==> next == loc
  {
    if name == "up" then (loc.0 - 1, loc.1)
    else if name == "down" then (loc.0 + 1, loc.1)
    else if name == "left" then (loc.0, loc.1 - 1)
    else if name == "right" then (loc.0, loc.1 + 1)
    else loc
  }

  /** Where the dot is after a key press: the step, or (0, 0) when the
      step leaves the 20x20 grid. */
  function NextLoc(loc: (int, int), name: string): (next: (int, int))
    ensures OnGrid(next)
    ensures next == Step(loc, name) || next == (0, 0)
  {
    var s := Step(loc, name);
    if s.0 > 19 || s.0 < 0 || s.1 > 19 || s.1 < 0 then (0, 0) else s
  }

  function Opposite(name: string): string
  {
    if name == "up" then "down"
    else if name == "down" then "up"
    else if name == "left" then "right"
    else if name == "right" then "left"
    else name
  }

  /** The dot moves to a neighbouring pixel, stays where it is for a key
      that is not an arrow, or jumps back to the corner exactly when the
      step would leave the grid. */
  lemma NextLocMoves(loc: (int, int), name: string)
    requires OnGrid(loc)
    ensures var next := NextLoc(loc, name);
      && (name !in {"up", "down", "left", "right"} ==> next == loc)
      && (OnGrid(Step(loc, name)) ==> next == Step(loc, name))
      && (!OnGrid(Step(loc, name)) ==> next == (0, 0))
      && (next == loc || next == (0, 0) || Distance(loc, next) == 1)
  {
  }

  function Distance(a: (int, int), b: (int, int)): nat
  {
    (if a.0 < b.0 then b.0 - a.0 else a.0 - b.0) + (if a.1 < b.1 then b.1 - a.1 else a.1 - b.1)
  }

  /** An arrow that stays on the grid is undone by the opposite arrow. */
  lemma OppositeUndoes(loc: (int, int), name: string)
    requires OnGrid(loc) && OnGrid(Step(loc, name))
    ensures NextLoc(NextLoc(loc, name), Opposite(name)) == loc
  {
  }

  /** The grid shows the dot and nothing else: blue at `loc`, black
      everywhere else. */
  ghost predicate OneLit(pixels: array3<int>, loc: (int, int))
    reads pixels
  {
    forall x, y, c :: 0 <= x < pixels.Length0 && 0 <= y < pixels.Length1 && 0 <= c < pixels.Length2 ==>
      pixels[x, y, c] == if (x, y) == loc then DotColor(c) else 0
  }

  /** A grid showing only the dot always fits `bytes`, so `show` never
      stops on it. */
  lemma OneLitIsBytes(cw: ContourWall, loc: (int, int))
    requires cw.Valid() && OneLit(cw.pixels, loc)
    ensures AllBytes(cw.Channels())
  {
    forall i | 0 <= i < FrameSize ensures 0 <= cw.Channels()[i] < 256 {
      assert cw.Channels()[i] == cw.pixels[i / 60, (i % 60) / 3, i % 3];
    }
  }

  /** The start of the script: a driver on the port, the dot at (0, 0),
      lit and shown. */
  method Start(serial: Port) returns (cw: ContourWall, loc: array<int>, outcome: ShowOutcome)
    modifies serial
    ensures cw.Valid() && cw.serial == serial && fresh(cw.pixels) && fresh(loc)
    ensures loc.Length == 2 && loc[0] == 0 && loc[1] == 0
    ensures OneLit(cw.pixels, (0, 0))
    ensures Delivers(old(serial.State())) ==> outcome == Written && serial.sent == old(serial.sent) + Scatter(cw.Channels(), 0)
    ensures !Delivers(old(serial.State())) ==> outcome == WriteFailed && serial.sent == old(serial.sent)
  {
    cw := new ContourWall(serial);
    loc := new int[] [0, 0];
    cw.pixels[loc[0], loc[1], 0] := 0;
    cw.pixels[loc[0], loc[1], 1] := 0;
    cw.pixels[loc[0], loc[1], 2] := 255;
    OneLitIsBytes(cw, (0, 0));
    outcome := cw.Show();
  }

  /** The drawing part of `on_arrow_key` for a key press: the old pixel
      blacked out, the dot moved as `NextLoc` says and lit again. A grid
      that showed only the dot still does. */
  method MoveDot(cw: ContourWall, loc: array<int>, name: string)
    requires cw.Valid() && loc.Length == 2 && OnGrid((loc[0], loc[1]))
    modifies cw.pixels, loc
    ensures (loc[0], loc[1]) == NextLoc((old(loc[0]), old(loc[1])), name)
    ensures forall x, y, c :: 0 <= x < Side && 0 <= y < Side && 0 <= c < 3 ==>
      cw.pixels[x, y, c] == if (x, y) == (loc[0], loc[1]) then DotColor(c)
                            else if (x, y) == (old(loc[0]), old(loc[1])) then 0
                            else old(cw.pixels[x, y, c])
    ensures old(OneLit(cw.pixels, (loc[0], loc[1]))) ==> OneLit(cw.pixels, (loc[0], loc[1]))
  {
    cw.pixels[loc[0], loc[1], 0] := 0;
    cw.pixels[loc[0], loc[1], 1] := 0;
    cw.pixels[loc[0], loc[1], 2] := 0;

    if name == "up" {
      loc[0] := loc[0] - 1;
    } else if name == "down" {
      loc[0] := loc[0] + 1;
    } else if name == "left" {
      loc[1] := loc[1] - 1;
    } else if name == "right" {
      loc[1] := loc[1] + 1;
    }

    if loc[0] > 19 || loc[0] < 0 || loc[1] > 19 || loc[1] < 0 {
      loc[0] := 0;
      loc[1] := 0;
    }

    cw.pixels[loc[0], loc[1], 0] := 0;
    cw.pixels[loc[0], loc[1], 1] := 0;
    cw.pixels[loc[0], loc[1], 2] := 255;
  }

  /** `on_arrow_key`: a key release changes nothing; a key press moves the
      dot (`MoveDot`) and shows the grid. Started from `Start`, the grid
      only ever shows the dot, so every show writes the frame unless the
      write fails. */
  method OnArrowKey(cw: ContourWall, loc: array<int>, event: KeyEvent) returns (outcome: Option<ShowOutcome>)
    requires cw.Valid() && loc.Length == 2 && OnGrid((loc[0], loc[1]))
    modifies cw.pixels, loc, cw.serial
    ensures cw.Valid() && OnGrid((loc[0], loc[1]))
    ensures event.eventType != KeyDown ==>
      && outcome == None && loc[0] == old(loc[0]) && loc[1] == old(loc[1])
      && unchanged(cw.pixels) && unchanged(cw.serial)
    ensures event.eventType == KeyDown ==>
      && (loc[0], loc[1]) == NextLoc((old(loc[0]), old(loc[1])), event.name)
      && (forall x, y, c :: 0 <= x < Side && 0 <= y < Side && 0 <= c < 3 ==>
            cw.pixels[x, y, c] == if (x, y) == (loc[0], loc[1]) then DotColor(c)
                                  else if (x, y) == (old(loc[0]), old(loc[1])) then 0
                                  else old(cw.pixels[x, y, c]))
    ensures old(OneLit(cw.pixels, (loc[0], loc[1]))) ==> OneLit(cw.pixels, (loc[0], loc[1]))
    ensures old(OneLit(cw.pixels, (loc[0], loc[1]))) && event.eventType == KeyDown ==>
      && (Delivers(old(cw.serial.State())) ==>
            outcome == Some(Written) && cw.serial.sent == old(cw.serial.sent) + Scatter(cw.Channels(), 0))
      && (!Delivers(old(cw.serial.State())) ==> outcome == Some(WriteFailed) && cw.serial.sent == old(cw.serial.sent))
  {
    if event.eventType != KeyDown {
      return None;
    }
    ghost var wasLit := OneLit(cw.pixels, (loc[0], loc[1]));
    MoveDot(cw, loc, event.name);
    if wasLit {
      OneLitIsBytes(cw, (loc[0], loc[1]));
    }
    var shown := cw.Show();
    outcome := Some(shown);
  }
}
