/** The bitmap font of font/font.py: every glyph is a CSV file of '1'
    (white) and other (black) cells; `load_character_index` fills a global
    table keyed by the code point written in the file name, and `put_text`
    copies glyphs into an image left to right, six rows further down for
    every newline. */
module Font {
  import opened Common

  /** One image cell: the glyph arrays hold [255, 255, 255] or [0, 0, 0]. */
  datatype Rgb = Rgb(r: int, g: int, b: int)

  const White := Rgb(255, 255, 255)
  const Black := Rgb(0, 0, 0)

  function Channel(c: Rgb, ch: nat): int
  {
    if ch == 0 then c.r else if ch == 1 then c.g else c.b
  }

  /** A glyph: its cells row by row, its width (cells in the first line) and
      its height (number of lines). */
  datatype Glyph = Glyph(cells: seq<seq<Rgb>>, width: nat, height: nat)

  /** Every line has the glyph's width, and there is at least one cell. */
  predicate WellShaped(g: Glyph)
  {
    && g.height >= 1 && g.width >= 1
    && |g.cells| == g.height
    && forall i :: 0 <= i < |g.cells| ==> |g.cells[i]| == g.width
  }

  // ---------------------------------------------------------------- split

  /** Python's `s.split(sep)` for a one-character separator: the pieces
      between separators, always at least one. */
  function Split(s: string, sep: char): (parts: seq<string>)
    ensures |parts| >= 1
    ensures forall i :: 0 <= i < |parts| ==> sep !in parts[i]
  {
    if s == [] then [[]]
    else
      var rest := Split(s[1..], sep);
      if s[0] == sep then [[]] + rest else [[s[0]] + rest[0]] + rest[1..]
  }

  /** `sep.join(parts)`. */
  function Join(parts: seq<string>, sep: char): string
    requires |parts| >= 1
  {
    if |parts| == 1 then parts[0] else parts[0] + [sep] + Join(parts[1..], sep)
  }

  /** Joining the pieces gives the text back. */
  lemma {:induction false} JoinSplit(s: string, sep: char)
    ensures Join(Split(s, sep), sep) == s
  {
    if s != [] {
      JoinSplit(s[1..], sep);
      var rest := Split(s[1..], sep);
      if s[0] != sep {
        if |rest| > 1 {
          assert rest[1..][..] == rest[1..];
          assert Join(rest, sep) == rest[0] + [sep] + Join(rest[1..], sep);
          assert ([[s[0]] + rest[0]] + rest[1..])[1..] == rest[1..];
        }
      } else {
        assert ([[]] + rest)[1..] == rest;
      }
    }
  }

  /** A text without the separator is one piece. */
  lemma {:induction false} SplitWhole(p: string, sep: char)
    requires sep !in p
    ensures Split(p, sep) == [p]
  {
    if p != [] {
      SplitWhole(p[1..], sep);
      assert [p[0]] + p[1..] == p;
    }
  }

  /** A separator-free piece followed by a separator splits off first. */
  lemma {:induction false} SplitFirst(p: string, t: string, sep: char)
    requires sep !in p
    ensures Split(p + [sep] + t, sep) == [p] + Split(t, sep)
  {
    var s := p + [sep] + t;
    if p == [] {
      assert s[1..] == t;
    } else {
      assert s[1..] == p[1..] + [sep] + t;
      SplitFirst(p[1..], t, sep);
      assert [p[0]] + p[1..] == p;
    }
  }

  /** Splitting separator-free pieces joined by the separator gives the
      pieces back. */
  lemma {:induction false} SplitJoin(parts: seq<string>, sep: char)
    requires |parts| >= 1 && forall i :: 0 <= i < |parts| ==> sep !in parts[i]
    ensures Split(Join(parts, sep), sep) == parts
  {
    if |parts| == 1 {
      SplitWhole(parts[0], sep);
    } else {
      SplitJoin(parts[1..], sep);
      SplitFirst(parts[0], Join(parts[1..], sep), sep);
      assert [parts[0]] + parts[1..] == parts;
    }
  }

  lemma {:induction false} JoinAvoids(parts: seq<string>, sep: char, c: char)
    requires |parts| >= 1 && c != sep && forall i :: 0 <= i < |parts| ==> c !in parts[i]
    ensures c !in Join(parts, sep)
  {
    if |parts| > 1 {
      JoinAvoids(parts[1..], sep, c);
    }
  }

  // ---------------------------------------------------------------- glyphs

  /** A CSV cell: exactly "1" is white. */
  function Cell(text: string): Rgb
  {
    if text == "1" then White else Black
  }

  function ParseRow(line: string): (row: seq<Rgb>)
    ensures |row| == |Split(line, ',')|
  {
    var cells := Split(line, ',');
    seq(|cells|, j requires 0 <= j < |cells| => Cell(cells[j]))
  }

  /** The glyph of one CSV file: lines split on '\n', cells on ','. A file
      whose lines differ in length is refused, as `np.array` refuses a
      ragged list (NumPy 1.24 and later). */
  function ParseGlyph(data: string): (g: Option<Glyph>)
    ensures g.Some? ==> WellShaped(g.value) && g.value.height == |Split(data, '\n')|
    ensures g.Some? ==> forall i, j :: 0 <= i < g.value.height && 0 <= j < g.value.width ==>
      g.value.cells[i][j] in {White, Black}
  {
    var lines := Split(data, '\n');
    var rows := seq(|lines|, i requires 0 <= i < |lines| => ParseRow(lines[i]));
    if forall i :: 0 <= i < |rows| ==> |rows[i]| == |rows[0]| then Some(Glyph(rows, |rows[0]|, |rows|)) else None
  }

  /** The CSV text of a glyph, white as "1" and black as "0". */
  function CellText(c: Rgb): string
  {
    if c == White then "1" else "0"
  }

  function RowText(row: seq<Rgb>): string
    requires |row| >= 1
  {
    Join(seq(|row|, j requires 0 <= j < |row| => CellText(row[j])), ',')
  }

  function GlyphCsv(g: Glyph): string
    requires WellShaped(g)
  {
    Join(seq(g.height, i requires 0 <= i < g.height => RowText(g.cells[i])), '\n')
  }

  /** Reading a written glyph gives it back. */
  lemma GlyphRoundTrip(g: Glyph)
    requires WellShaped(g)
    requires forall i, j :: 0 <= i < g.height && 0 <= j < g.width ==> g.cells[i][j] in {White, Black}
    ensures ParseGlyph(GlyphCsv(g)) == Some(g)
  {
    var lines := seq(g.height, i requires 0 <= i < g.height => RowText(g.cells[i]));
    forall i | 0 <= i < g.height
      ensures '\n' !in lines[i] && ParseRow(lines[i]) == g.cells[i]
    {
      RowRoundTrip(g.cells[i]);
    }
    assert GlyphCsv(g) == Join(lines, '\n');
    SplitJoin(lines, '\n');
    var rows := seq(|lines|, i requires 0 <= i < |lines| => ParseRow(lines[i]));
    assert rows == g.cells;
  }

  lemma RowRoundTrip(row: seq<Rgb>)
    requires |row| >= 1 && forall j :: 0 <= j < |row| ==> row[j] in {White, Black}
    ensures '\n' !in RowText(row) && ParseRow(RowText(row)) == row
  {
    var texts := seq(|row|, j requires 0 <= j < |row| => CellText(row[j]));
    assert forall j :: 0 <= j < |texts| ==> texts[j] == "1" || texts[j] == "0";
    JoinAvoids(texts, ',', '\n');
    SplitJoin(texts, ',');
    assert RowText(row) == Join(texts, ',');
    forall j | 0 <= j < |row|
      ensures Cell(texts[j]) == row[j]
    {
      if row[j] != White {
        assert texts[j] == "0";
        assert texts[j] != "1" by { assert texts[j][0] != '1'; }
      }
    }
  }

  // ---------------------------------------------------------------- file names

  predicate IsDigit(c: char) { '0' <= c <= '9' }

  /** The value of a string of decimal digits. */
  function DigitsValue(s: string): nat
    requires forall i :: 0 <= i < |s| ==> IsDigit(s[i])
  {
    if s == [] then 0
    else
      assert IsDigit(s[|s| - 1]);
      DigitsValue(s[..|s| - 1]) * 10 + (s[|s| - 1] as int - '0' as int)
  }

  /** `int(s)` for a string of ASCII digits; anything else is refused. */
  function ParseDecimal(s: string): Option<nat>
  {
    if |s| > 0 && forall i :: 0 <= i < |s| ==> IsDigit(s[i]) then Some(DigitsValue(s)) else None
  }

  /** The decimal digits of a number, without leading zeros. */
  function Decimal(n: nat): (s: string)
    ensures |s| > 0 && forall i :: 0 <= i < |s| ==> IsDigit(s[i])
  {
    if n < 10 then [('0' as int + n) as char] else Decimal(n / 10) + [('0' as int + n % 10) as char]
  }

  /** Reading a number's decimal digits gives the number. */
  lemma {:induction false} DecimalRoundTrip(n: nat)
    ensures ParseDecimal(Decimal(n)) == Some(n)
  {
    var s := Decimal(n);
    if n >= 10 {
      DecimalRoundTrip(n / 10);
      assert s[..|s| - 1] == Decimal(n / 10);
      assert s[|s| - 1] as int - '0' as int == n % 10;
      assert DigitsValue(s) == (n / 10) * 10 + n % 10;
    } else {
      assert s[..0] == [];
      assert DigitsValue(s) == DigitsValue([]) * 10 + n;
    }
  }

  /** The largest code point `chr` accepts. */
  const MaxCodePoint := 0x10FFFF

  /** `name[5:-4]`: empty when the name is shorter than nine characters. */
  function Middle(name: string): (middle: string)
    ensures |name| >= 9 ==> name == name[..5] + middle + name[|name| - 4..]
    ensures |name| < 9 ==> middle == []
  {
    if |name| >= 9 then name[5..|name| - 4] else []
  }

  /** Only names ending in ".csv" are glyph files. */
  predicate IsCsv(name: string)
  {
    |name| >= 4 && name[|name| - 4..] == ".csv"
  }

  /** `chr(int(name[5:-4]))`, as a code point; None where `int` or `chr`
      raises. */
  function GlyphKey(name: string): (k: Option<int>)
    ensures k.Some? ==> 0 <= k.value <= MaxCodePoint
  {
    var n := ParseDecimal(Middle(name));
    if n.Some? && n.value <= MaxCodePoint then Some(n.value) else None
  }

  /** A file named by a five-character prefix, a code point in decimal and
      ".csv" is a glyph file for that code point. */
  lemma KeyOfGlyphFile(prefix: string, n: nat)
    requires |prefix| == 5 && n <= MaxCodePoint
    ensures IsCsv(prefix + Decimal(n) + ".csv")
    ensures GlyphKey(prefix + Decimal(n) + ".csv") == Some(n)
  {
    var name := prefix + Decimal(n) + ".csv";
    assert name[|name| - 4..] == ".csv";
    assert Middle(name) == Decimal(n);
    DecimalRoundTrip(n);
  }

  // ---------------------------------------------------------------- loading

  /** The glyph table after one more directory entry (name, contents), and
      whether loading goes on: a ".csv" file whose contents or name cannot
      be read stops it (ValueError). */
  function LoadOne(index: map<int, Glyph>, file: (string, string)): (r: (map<int, Glyph>, bool))
    ensures !IsCsv(file.0) ==> r == (index, true)
    ensures !r.1 ==> r.0 == index
    ensures index.Keys <= r.0.Keys
  {
    if !IsCsv(file.0) then (index, true)
    else
      var glyph := ParseGlyph(file.1);
      var key := GlyphKey(file.0);
      if glyph.None? || key.None? then (index, false) else (index[key.value := glyph.value], true)
  }

  /** `load_character_index` over the directory entries in listing order. */
  function LoadAll(index: map<int, Glyph>, files: seq<(string, string)>): (r: (map<int, Glyph>, bool))
    ensures index.Keys <= r.0.Keys
  {
    if files == [] then (index, true)
    else
      var (m, ok) := LoadAll(index, files[..|files| - 1]);
      if ok then LoadOne(m, files[|files| - 1]) else (m, false)
  }

  /** Once a file stops the load, later entries change nothing. */
  lemma {:induction false} LoadAllStopped(index: map<int, Glyph>, files: seq<(string, string)>, i: nat)
    requires i <= |files| && !LoadAll(index, files[..i]).1
    ensures LoadAll(index, files) == LoadAll(index, files[..i])
    decreases |files| - i
  {
    if i < |files| {
      assert files[..i + 1][..i] == files[..i];
      LoadAllStopped(index, files, i + 1);
    } else {
      assert files[..i] == files;
    }
  }

  /** The position of the last glyph file for code point `k`. */
  function LastFile(files: seq<(string, string)>, k: int): (r: Option<nat>)
    ensures r.Some? ==> r.value < |files| && IsCsv(files[r.value].0) && GlyphKey(files[r.value].0) == Some(k)
  {
    if files == [] then None
    else if IsCsv(files[|files| - 1].0) && GlyphKey(files[|files| - 1].0) == Some(k) then Some(|files| - 1)
    else LastFile(files[..|files| - 1], k)
  }

  /** After a complete load, each code point maps to the glyph of the last
      file named for it in listing order, or keeps its earlier glyph when
      no file names it. */
  lemma {:induction false} LoadAllMeaning(index: map<int, Glyph>, files: seq<(string, string)>)
    ensures var (m, ok) := LoadAll(index, files);
      ok ==> forall k ::
        && (k in m <==> k in index || LastFile(files, k).Some?)
        && (k in m && LastFile(files, k).Some? ==> ParseGlyph(files[LastFile(files, k).value].1) == Some(m[k]))
        && (k in m && LastFile(files, k).None? ==> m[k] == index[k])
  {
    if files != [] {
      var n := |files| - 1;
      LoadAllMeaning(index, files[..n]);
      var (m, ok) := LoadAll(index, files[..n]);
      if ok {
        forall k
          ensures LastFile(files, k) == if IsCsv(files[n].0) && GlyphKey(files[n].0) == Some(k) then Some(n)
                                        else LastFile(files[..n], k)
        {
        }
        forall k | LastFile(files[..n], k).Some?
          ensures files[..n][LastFile(files[..n], k).value] == files[LastFile(files[..n], k).value]
        {
        }
      }
    }
  }

  // ---------------------------------------------------------------- layout

  /** Where `put_text` copies a glyph, and on which text line (0 before the
      first newline). */
  datatype Placement = Placement(row: int, col: int, glyph: Glyph, line: nat)

  /** How `put_text` ends: all text written, a character without a glyph
      (KeyError), or a glyph the image slice cannot take (ValueError). */
  datatype Stop = Done | MissingGlyph(c: char) | DoesNotFit(c: char)

  /** NumPy's slice assignment in one dimension: the slice from `start`
      clipped to `bound` must have the glyph's size, or be empty where the
      glyph has size 1 (broadcast). */
  predicate DimFits(start: int, size: int, bound: int)
  {
    start + size <= bound || (size == 1 && start >= bound)
  }

  predicate Fits(row: int, col: int, g: Glyph, rows: int, cols: int, channels: int)
  {
    channels == 3 && DimFits(row, g.height, rows) && DimFits(col, g.width, cols)
  }

  /** The glyphs `put_text` places for `text` from the cursor (row, col),
      and how it ends; `columnStart` is where every new line starts. */
  function Layout(index: map<int, Glyph>, text: string, row: int, col: int, columnStart: int, line: nat,
                  rows: int, cols: int, channels: int): (r: (seq<Placement>, Stop))
    ensures |r.0| <= |text|
    decreases |text|
  {
    if text == [] then ([], Done)
    else if text[0] == '\n' then Layout(index, text[1..], row + 6, columnStart, columnStart, line + 1, rows, cols, channels)
    else if text[0] as int !in index then ([], MissingGlyph(text[0]))
    else
      var g := index[text[0] as int];
      if !Fits(row, col, g, rows, cols, channels) then ([], DoesNotFit(text[0]))
      else
        var rest := Layout(index, text[1..], row, col + g.width + 1, columnStart, line, rows, cols, channels);
        ([Placement(row, col, g, line)] + rest.0, rest.1)
  }

  /** The shape of a layout: line k sits 6k rows below the start; glyphs of
      a line start at or right of the line's first column and never share a
      column with an earlier glyph of the same line (one blank column in
      between); later glyphs never sit on an earlier line. */
  lemma {:induction false} LayoutShape(index: map<int, Glyph>, text: string, row: int, col: int, columnStart: int,
                                       line: nat, rows: int, cols: int, channels: int)
    requires col >= columnStart
    ensures var steps := Layout(index, text, row, col, columnStart, line, rows, cols, channels).0;
      && (forall k :: 0 <= k < |steps| ==>
            && steps[k].line >= line
            && steps[k].row == row + 6 * (steps[k].line - line)
            && (steps[k].line == line ==> steps[k].col >= col)
            && steps[k].col >= columnStart)
      && (forall k, m :: 0 <= k < m < |steps| ==>
            steps[k].line <= steps[m].line
            && (steps[k].line == steps[m].line ==> steps[k].col + steps[k].glyph.width < steps[m].col))
    decreases |text|
  {
    if text != [] {
      if text[0] == '\n' {
        LayoutShape(index, text[1..], row + 6, columnStart, columnStart, line + 1, rows, cols, channels);
        assert Layout(index, text, row, col, columnStart, line, rows, cols, channels)
          == Layout(index, text[1..], row + 6, columnStart, columnStart, line + 1, rows, cols, channels);
      } else if text[0] as int in index {
        var g := index[text[0] as int];
        if Fits(row, col, g, rows, cols, channels) {
          LayoutShape(index, text[1..], row, col + g.width + 1, columnStart, line, rows, cols, channels);
          var rest := Layout(index, text[1..], row, col + g.width + 1, columnStart, line, rows, cols, channels).0;
          assert var s := Layout(index, text[1..], row, col + g.width + 1, columnStart, line, rows, cols, channels).0;
            forall k :: 0 <= k < |s| ==> s[k].line >= line;
          var steps := [Placement(row, col, g, line)] + rest;
          assert Layout(index, text, row, col, columnStart, line, rows, cols, channels).0 == steps;
          assert forall k :: 1 <= k < |steps| ==> steps[k] == rest[k - 1];
          assert forall m :: 1 <= m < |steps| && steps[m].line == line ==> steps[m].col >= col + g.width + 1;
        }
      }
    }
  }

  /** How a layout ends: with Done every character but the newlines got a
      glyph, one placement each; a missing glyph is a character of the text
      other than a newline that the table lacks. */
  lemma {:induction false} LayoutStops(index: map<int, Glyph>, text: string, row: int, col: int, columnStart: int,
                                       line: nat, rows: int, cols: int, channels: int)
    ensures var (steps, stop) := Layout(index, text, row, col, columnStart, line, rows, cols, channels);
      && (stop == Done ==> |steps| == NonNewlines(text) && forall i :: 0 <= i < |text| && text[i] != '\n' ==> text[i] as int in index)
      && (stop.MissingGlyph? ==> stop.c in text && stop.c != '\n' && stop.c as int !in index)
      && (stop.DoesNotFit? ==> stop.c in text && stop.c != '\n' && stop.c as int in index)
    decreases |text|
  {
    if text != [] {
      var g := if text[0] as int in index then index[text[0] as int] else Glyph([], 0, 0);
      if text[0] == '\n' {
        LayoutStops(index, text[1..], row + 6, columnStart, columnStart, line + 1, rows, cols, channels);
      } else if text[0] as int in index && Fits(row, col, g, rows, cols, channels) {
        LayoutStops(index, text[1..], row, col + g.width + 1, columnStart, line, rows, cols, channels);
      }
      assert forall i :: 1 <= i < |text| ==> text[i] == text[1..][i - 1];
      assert forall c :: c in text[1..] ==> c in text;
    }
  }

  /** The number of characters that are not newlines. */
  function NonNewlines(text: string): nat
  {
    if text == [] then 0 else (if text[0] == '\n' then 0 else 1) + NonNewlines(text[1..])
  }

  /** The columns `put_text` moves the caller's cursor by: glyph width plus
      one for each glyph placed before the first newline. */
  function FirstLineAdvance(steps: seq<Placement>): int
  {
    if steps == [] then 0
    else
      var last := steps[|steps| - 1];
      FirstLineAdvance(steps[..|steps| - 1]) + (if last.line == 0 then last.glyph.width + 1 else 0)
  }

  /** Whether a placement covers image cell (r, c). */
  predicate Covers(p: Placement, r: int, c: int)
  {
    p.row <= r < p.row + p.glyph.height && p.col <= c < p.col + p.glyph.width
  }

  /** The value of image cell (r, c, ch) after the placements, starting from
      `before`: the last placement covering the cell decides. */
  function Paint(steps: seq<Placement>, r: int, c: int, ch: nat, before: int): int
  {
    if steps == [] then before
    else
      var p := steps[|steps| - 1];
      if Covers(p, r, c) && WellShaped(p.glyph) then Channel(p.glyph.cells[r - p.row][c - p.col], ch)
      else Paint(steps[..|steps| - 1], r, c, ch, before)
  }

  /** A placement added last decides the cells it covers and leaves the
      others as the earlier placements left them. */
  lemma PaintLast(steps: seq<Placement>, p: Placement, r: int, c: int, ch: nat, before: int)
    ensures Paint(steps + [p], r, c, ch, before)
         == if Covers(p, r, c) && WellShaped(p.glyph) then Channel(p.glyph.cells[r - p.row][c - p.col], ch)
            else Paint(steps, r, c, ch, before)
  {
    assert (steps + [p])[..|steps|] == steps;
  }

  // ---------------------------------------------------------------- the font

  /** The module-level `character_index` table. */
  class Font {
    var characterIndex: map<int, Glyph>

    ghost predicate Valid()
      reads this
    {
      forall k :: k in characterIndex ==> WellShaped(characterIndex[k])
    }

    constructor ()
      ensures Valid() && characterIndex == map[]
    {
      characterIndex := map[];
    }

    /** `load_character_index`: every ".csv" entry of the font directory, in
        listing order, read as a glyph under the code point in its name;
        `files` holds the entries' names and contents. A file that fails to
        parse stops the load, keeping what was loaded before. */
    method LoadCharacterIndex(files: seq<(string, string)>) returns (ok: bool)
      requires Valid()
      modifies this
      ensures Valid()
      ensures (characterIndex, ok) == LoadAll(old(characterIndex), files)
    {
      ghost var start := characterIndex;
      for i := 0 to |files|
        invariant Valid()
        invariant (characterIndex, true) == LoadAll(start, files[..i])
      {
        assert files[..i + 1][..i] == files[..i];
        var (name, data) := files[i];
        if IsCsv(name) {
          var glyph := ParseGlyph(data);
          var key := GlyphKey(name);
          if glyph.None? || key.None? {
            LoadAllStopped(start, files, i + 1);
            ok := false;
            return;
          }
          characterIndex := characterIndex[key.value := glyph.value];
        }
      }
      assert files[..|files|] == files;
      ok := true;
    }

    /** `put_text`: each character's glyph copied into `frame` at the cursor,
        which moves right by the glyph's width plus one; a newline moves it
        six rows down to the starting column. `start` is the caller's
        [row, column] list: the cursor is that very list until the first
        newline, so the caller sees its column advance. */
    method PutText(frame: array3<int>, text: string, start: array<int>) returns (stop: Stop)
      requires Valid() && start.Length == 2 && start[0] >= 0 && start[1] >= 0
      modifies frame, start
      ensures var (steps, s) := Layout(characterIndex, text, old(start[0]), old(start[1]), old(start[1]), 0,
                                       frame.Length0, frame.Length1, frame.Length2);
        && stop == s
        && (forall r, c, ch :: 0 <= r < frame.Length0 && 0 <= c < frame.Length1 && 0 <= ch < frame.Length2 ==>
              frame[r, c, ch] == Paint(steps, r, c, ch, old(frame[r, c, ch])))
        && start[0] == old(start[0]) && start[1] == old(start[1]) + FirstLineAdvance(steps)
    {
      var columnStart := start[1];
      var cursor := start;
      ghost var line: nat := 0;
      ghost var steps: seq<Placement> := [];
      ghost var whole := Layout(characterIndex, text, old(start[0]), old(start[1]), old(start[1]), 0,
                                frame.Length0, frame.Length1, frame.Length2);
      assert text[0..] == text;
      assert [] + whole.0 == whole.0;
      for i := 0 to |text|
        invariant cursor.Length == 2 && (line == 0 <==> cursor == start)
        invariant cursor != start ==> fresh(cursor)
        invariant start[0] == old(start[0]) && start[1] == old(start[1]) + FirstLineAdvance(steps)
        invariant whole.0 == steps + Layout(characterIndex, text[i..], cursor[0], cursor[1], columnStart, line,
                                            frame.Length0, frame.Length1, frame.Length2).0
        invariant whole.1 == Layout(characterIndex, text[i..], cursor[0], cursor[1], columnStart, line,
                                    frame.Length0, frame.Length1, frame.Length2).1
        invariant forall r, c, ch :: 0 <= r < frame.Length0 && 0 <= c < frame.Length1 && 0 <= ch < frame.Length2 ==>
          frame[r, c, ch] == Paint(steps, r, c, ch, old(frame[r, c, ch]))
      {
        var c := text[i];
        ghost var here := Layout(characterIndex, text[i..], cursor[0], cursor[1], columnStart, line,
                                 frame.Length0, frame.Length1, frame.Length2);
        assert text[i..][0] == c && text[i..][1..] == text[i + 1..];
        if c == '\n' {
          cursor := new int[] [cursor[0] + 6, columnStart];
          line := line + 1;
          continue;
        }
        if c as int !in characterIndex {
          assert here == ([], MissingGlyph(c));
          assert steps + [] == steps;
          assert whole == (steps, MissingGlyph(c));
          return MissingGlyph(c);
        }
        var letter := characterIndex[c as int];
        if !Fits(cursor[0], cursor[1], letter, frame.Length0, frame.Length1, frame.Length2) {
          assert here == ([], DoesNotFit(c));
          assert steps + [] == steps;
          assert whole == (steps, DoesNotFit(c));
          return DoesNotFit(c);
        }
        var row, col := cursor[0], cursor[1];
        ghost var p := Placement(row, col, letter, line);
        cursor[1] := col + letter.width + 1;
        Blit(frame, row, col, letter);
        forall r, c, ch | 0 <= r < frame.Length0 && 0 <= c < frame.Length1 && 0 <= ch < frame.Length2
          ensures frame[r, c, ch] == Paint(steps + [p], r, c, ch, old(frame[r, c, ch]))
        {
          PaintLast(steps, p, r, c, ch, old(frame[r, c, ch]));
        }
        steps := steps + [p];
      }
      assert text[|text|..] == [];
      assert steps + [] == steps;
      assert whole == (steps, Done);
      stop := Done;
    }
  }

  /** The slice assignment of `put_text`: the glyph's cells written into the
      part of `frame` it covers. */
  method Blit(frame: array3<int>, row: int, col: int, g: Glyph)
    requires WellShaped(g) && frame.Length2 == 3
    modifies frame
    ensures forall r, c, ch :: 0 <= r < frame.Length0 && 0 <= c < frame.Length1 && 0 <= ch < frame.Length2 ==>
      frame[r, c, ch] == if row <= r < row + g.height && col <= c < col + g.width
                         then Channel(g.cells[r - row][c - col], ch) else old(frame[r, c, ch])
  {
    forall r, c, ch | 0 <= r < frame.Length0 && 0 <= c < frame.Length1 && 0 <= ch < frame.Length2
                      && row <= r < row + g.height && col <= c < col + g.width {
      frame[r, c, ch] := Channel(g.cells[r - row][c - col], ch);
    }
  }
}
