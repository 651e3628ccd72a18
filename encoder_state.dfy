/**
 * The colourizer of server.js (class Colorizer, lines 52-125) as a state machine on
 * values. Each operation of the class is a function from the old state to the new one;
 * the class in colorizer.dfy is proved to follow these functions, and the lemmas here
 * state what the encoder promises: runs of one colour are merged, a closed line ends in
 * its single EOL run, the cursor never moves back, the runs of the open line add up to
 * the distance from the column where that line began to the cursor, a span of zero width
 * leaves no trace, and under a colour code on top of the stack no run is painted `null`.
 */
module EncoderState {
  import opened Wrappers
  import opened Classifier
  import opened Syntax

  /** A colour as the stack holds it: a code, or `null` for "no colour". */
  type Color = Option<ColorCode>

  /** One run of a line: its colour and its length, or EOL for "to the end of the line". */
  datatype Run = Run(color: Color, distance: nat)

  /**
   * The fields of a Colorizer. `colors` and `line` are kept backwards (newest first);
   * `lines` holds every line that has received a run, the current one included.
   */
  datatype State = State(row: nat, column: nat, colors: seq<Color>, line: seq<Run>, lines: seq<seq<Run>>)

  /**
   * The constructor: cursor at the given point, the stack holding only `null`, no runs.
   * A new encoder satisfies the invariant, with the first line beginning at `column`, and
   * has nothing to send.
   */
  function Init(row: nat, column: nat): (r: State)
    ensures Valid(r, column) && Cursor(r) == Position(row, column) && Top(r.colors) == None
    ensures Render(r) == []
  {
    State(row, column, [None], [], [])
  }

  function Cursor(s: State): Position {
    Position(s.row, s.column)
  }

  /** `colors[0]`; on an empty stack this is `undefined`, which `==` treats as `null`. */
  function Top(colors: seq<Color>): Color {
    if |colors| == 0 then None else colors[0]
  }

  /**
   * `lines` holds the current line by reference, so a non-empty current line is always
   * the last entry of `lines`; an empty current line is a fresh array not yet in `lines`.
   */
  predicate Aliased(s: State) {
    |s.line| == 0 || (|s.lines| > 0 && s.lines[|s.lines| - 1] == s.line)
  }

  /** The lines that are closed: all of `lines` except the current line. */
  function Done(s: State): seq<seq<Run>>
    requires Aliased(s)
  {
    if |s.line| == 0 then s.lines else s.lines[..|s.lines| - 1]
  }

  lemma LinesFromDone(s: State)
    requires Aliased(s)
    ensures s.lines == Done(s) + (if |s.line| == 0 then [] else [s.line])
  {
  }

  /**
   * Add a run of `color` to the front of a backwards line: merged into the newest run when
   * that run has the same colour (turning it into the EOL run if `distance` is EOL),
   * otherwise put in front of it.
   */
  function Push(line: seq<Run>, color: Color, distance: nat): (r: seq<Run>)
    ensures |r| > 0 && r[0].color == color
    ensures distance == EOL ==> r[0].distance == EOL
    ensures r[1..] == line || (|line| > 0 && r[1..] == line[1..])
  {
    if |line| > 0 && line[0].color == color then
      [Run(color, if distance == EOL then EOL else line[0].distance + distance)] + line[1..]
    else
      [Run(color, distance)] + line
  }

  /** `extend_line`: a run of `distance` (or EOL) in the colour on top of the stack. */
  function ExtendLine(s: State, distance: nat): (r: State)
    requires Aliased(s)
    ensures Aliased(r)
    ensures r.row == s.row && r.column == s.column && r.colors == s.colors
    ensures distance == EOL ==> r.line == [] && Done(r) == Done(s) + [Push(s.line, Top(s.colors), EOL)]
    ensures distance != EOL ==> r.line == Push(s.line, Top(s.colors), distance) && Done(r) == Done(s)
  {
    // a line joins `lines` when it receives its first run, and since the entry in `lines`
    // is the same array as the current line, that entry sees every later update
    var line := Push(s.line, Top(s.colors), distance);
    s.(line := if distance == EOL then [] else line, lines := Done(s) + [line])
  }

  /** One turn of the wrap loop of `advance_to`: close the line, go to column 0 of the next row. */
  function Wrap(s: State): (r: State)
    requires Aliased(s)
    ensures Aliased(r) && r.colors == s.colors
    ensures Cursor(r) == Position(s.row + 1, 0) && r.line == []
    ensures Done(r) == Done(s) + [Push(s.line, Top(s.colors), EOL)]
  {
    ExtendLine(s, EOL).(row := s.row + 1, column := 0)
  }

  /** The column step of `advance_to`: runs are added only when the column grows. */
  function ColumnStep(s: State, column: nat): (r: State)
    requires Aliased(s)
    ensures Aliased(r)
  {
    if column > s.column then ExtendLine(s, column - s.column).(column := column) else s
  }

  /**
   * `advance_to`. The cursor ends on the target row if that row is ahead, and stays on its
   * row otherwise (where, as in the source, the column is still compared and may grow);
   * exactly one line is closed per row crossed, and closed lines are never touched again.
   */
  function AdvanceTo(s: State, row: nat, column: nat): (r: State)
    requires Aliased(s)
    ensures Aliased(r) && r.colors == s.colors
    ensures r.row == if row > s.row then row else s.row
    ensures r.column == if row > s.row || column > s.column then column else s.column
    ensures AtOrBefore(Cursor(s), Cursor(r))
    ensures |Done(r)| == |Done(s)| + (if row > s.row then row - s.row else 0)
    ensures Done(s) <= Done(r)
    decreases row - s.row
  {
    if row > s.row then AdvanceTo(Wrap(s), row, column) else ColumnStep(s, column)
  }

  /** `start`: paint everything up to the node's start, then open its colour. */
  function Start(s: State, color: ColorCode, row: nat, column: nat): (r: State)
    requires Aliased(s)
    ensures Aliased(r)
    ensures r.colors == [Some(color)] + s.colors && Top(r.colors) == Some(color)
    ensures Cursor(r) == Cursor(AdvanceTo(s, row, column))
    ensures r.line == AdvanceTo(s, row, column).line && r.lines == AdvanceTo(s, row, column).lines
  {
    var a := AdvanceTo(s, row, column);
    a.(colors := [Some(color)] + a.colors)
  }

  /** `end`: paint the node's own span up to its end, then close its colour. */
  function End(s: State, row: nat, column: nat): (r: State)
    requires Aliased(s)
    ensures Aliased(r)
    ensures r.colors == if |s.colors| == 0 then [] else s.colors[1..]
    ensures Cursor(r) == Cursor(AdvanceTo(s, row, column))
    ensures r.line == AdvanceTo(s, row, column).line && r.lines == AdvanceTo(s, row, column).lines
  {
    var a := AdvanceTo(s, row, column);
    // `shift` on an empty array leaves it empty
    a.(colors := if |a.colors| == 0 then [] else a.colors[1..])
  }

  /** One rendered line, read forwards: colour, length, colour, length, ... */
  function RenderLine(line: seq<Run>): (cells: seq<Option<int>>)
    ensures |cells| == 2 * |line|
    ensures forall i :: 0 <= i < |cells| ==>
              cells[i] == (var run := line[|line| - 1 - i / 2];
                           if i % 2 == 0 then run.color else Some(run.distance))
  {
    if |line| == 0 then [] else RenderLine(line[1..]) + [line[0].color, Some(line[0].distance)]
  }

  /** `render`: every line that received a run, in order. It reads the state and changes nothing. */
  function Render(s: State): seq<seq<Option<int>>> {
    seq(|s.lines|, i requires 0 <= i < |s.lines| => RenderLine(s.lines[i]))
  }

  // ---------------------------------------------------------------------------
  // The invariant of the encoder

  /** Sum of the run lengths of a line. */
  function Sum(line: seq<Run>): nat {
    if |line| == 0 then 0 else line[0].distance + Sum(line[1..])
  }

  /** No two neighbouring runs share a colour. */
  predicate Distinct(line: seq<Run>) {
    forall i :: 0 < i < |line| ==> line[i - 1].color != line[i].color
  }

  /** The line being built: finite runs only, neighbours in different colours. */
  predicate OpenLine(line: seq<Run>) {
    Distinct(line) && forall i :: 0 <= i < |line| ==> line[i].distance > 0
  }

  /** A finished line: not empty, its newest run (the last one read forwards) and only that one is EOL. */
  predicate ClosedLine(line: seq<Run>) {
    |line| > 0 && line[0].distance == EOL && Distinct(line) &&
    forall i :: 0 < i < |line| ==> line[i].distance > 0
  }

  /** Where the current line began: the constructor's column until a line closes, column 0 after. */
  function LineStart(s: State, origin: nat): nat
    requires Aliased(s)
  {
    if |Done(s)| == 0 then origin else 0
  }

  ghost predicate Valid(s: State, origin: nat) {
    Aliased(s) &&
    (forall i :: 0 <= i < |Done(s)| ==> ClosedLine(Done(s)[i])) &&
    OpenLine(s.line) &&
    LineStart(s, origin) + Sum(s.line) == s.column
  }

  /** A finite run keeps the open line well formed and lengthens it by exactly its distance. */
  lemma PushFinite(line: seq<Run>, color: Color, distance: nat)
    requires OpenLine(line) && distance > 0
    ensures OpenLine(Push(line, color, distance))
    ensures Sum(Push(line, color, distance)) == Sum(line) + distance
  {
    var p := Push(line, color, distance);
    if |line| > 0 && line[0].color == color {
      assert p[1..] == line[1..];
    } else {
      assert p[1..] == line;
    }
  }

  /** An EOL run turns a well-formed open line into a closed one. */
  lemma PushEol(line: seq<Run>, color: Color)
    requires OpenLine(line)
    ensures ClosedLine(Push(line, color, EOL))
  {
  }

  /** Two runs of the same colour in a row leave the same line as one run of their total length. */
  lemma PushMerges(line: seq<Run>, color: Color, first: nat, second: nat)
    requires first > 0
    ensures Push(Push(line, color, first), color, second)
         == Push(line, color, if second == EOL then EOL else first + second)
  {
  }

  lemma {:induction false} AdvanceToPreservesValid(s: State, origin: nat, row: nat, column: nat)
    requires Valid(s, origin)
    ensures Valid(AdvanceTo(s, row, column), origin)
    decreases row - s.row
  {
    if row > s.row {
      WrapPreservesValid(s, origin);
      AdvanceToPreservesValid(Wrap(s), origin, row, column);
    } else {
      ColumnStepPreservesValid(s, origin, column);
    }
  }

  /** A run up to a column further right keeps the encoder well formed. */
  lemma ColumnStepPreservesValid(s: State, origin: nat, column: nat)
    requires Valid(s, origin)
    ensures Valid(ColumnStep(s, column), origin)
  {
    if column > s.column {
      PushFinite(s.line, Top(s.colors), column - s.column);
    }
  }

  /** Closing the current line keeps the encoder well formed; the next line starts at column 0. */
  lemma WrapPreservesValid(s: State, origin: nat)
    requires Valid(s, origin)
    ensures Valid(Wrap(s), origin)
  {
    var w := Wrap(s);
    PushEol(s.line, Top(s.colors));
    assert Done(w) == Done(s) + [Push(s.line, Top(s.colors), EOL)];
  }

  lemma StartPreservesValid(s: State, origin: nat, color: ColorCode, row: nat, column: nat)
    requires Valid(s, origin)
    ensures Valid(Start(s, color, row, column), origin)
  {
    AdvanceToPreservesValid(s, origin, row, column);
  }

  lemma EndPreservesValid(s: State, origin: nat, row: nat, column: nat)
    requires Valid(s, origin)
    ensures Valid(End(s, row, column), origin)
  {
    AdvanceToPreservesValid(s, origin, row, column);
  }

  // ---------------------------------------------------------------------------
  // What advancing paints

  /**
   * Crossing rows: the current line is closed by an EOL run in the colour on top of the
   * stack, every further row crossed becomes a line holding that single EOL run, and the
   * target row starts with one run of that colour reaching the target column (or with no
   * run when the column is 0).
   */
  lemma {:induction false} AdvanceToCrossesLines(s: State, row: nat, column: nat)
    requires Aliased(s) && row > s.row
    ensures var r := AdvanceTo(s, row, column);
            var t := Top(s.colors);
            Done(r)[|Done(s)|] == Push(s.line, t, EOL) &&
            (forall i :: |Done(s)| < i < |Done(r)| ==> Done(r)[i] == [Run(t, EOL)]) &&
            r.line == (if column > 0 then [Run(t, column)] else [])
    decreases row - s.row
  {
    var w := Wrap(s);
    if row > w.row {
      AdvanceToCrossesLines(w, row, column);
    }
  }

  /**
   * Staying on the row: at most one finite run, in the colour on top of the stack, and
   * only when the column grows; it is merged into the newest run if that has the same colour.
   */
  lemma AdvanceToWithinLine(s: State, row: nat, column: nat)
    requires Aliased(s) && row <= s.row
    ensures var r := AdvanceTo(s, row, column);
            Done(r) == Done(s) &&
            r.line == (if column > s.column then Push(s.line, Top(s.colors), column - s.column) else s.line)
  {
  }

  /**
   * Advancing in two steps, through any point between the cursor and the target, paints
   * exactly what one step paints: the runs of the two steps merge.
   */
  lemma {:induction false} AdvanceToSplits(s: State, p: Position, q: Position)
    requires Aliased(s) && AtOrBefore(Cursor(s), p) && AtOrBefore(p, q)
    ensures AdvanceTo(AdvanceTo(s, p.row, p.column), q.row, q.column) == AdvanceTo(s, q.row, q.column)
    decreases p.row - s.row
  {
    if p.row > s.row {
      AdvanceToSplits(Wrap(s), p, q);
    } else if p.column > s.column {
      if q.row > s.row {
        WrapAfterColumnStep(s, p.column);
      } else {
        ColumnStepTwice(s, p.column, q.column);
      }
    }
  }

  /** A line closed after a run is the line closed with that run merged into its EOL run. */
  lemma WrapAfterColumnStep(s: State, column: nat)
    requires Aliased(s) && column > s.column
    ensures Wrap(ColumnStep(s, column)) == Wrap(s)
  {
    var t := Top(s.colors);
    var a := ColumnStep(s, column);
    PushMerges(s.line, t, column - s.column, EOL);
    var wa, ws := Wrap(a), Wrap(s);
    LinesFromDone(wa);
    LinesFromDone(ws);
  }

  /** A column step that moves the cursor adds one run to the current line and closes nothing. */
  lemma ColumnStepGrows(s: State, column: nat)
    requires Aliased(s) && column > s.column
    ensures var a := ColumnStep(s, column);
            var line := Push(s.line, Top(s.colors), column - s.column);
            a == State(s.row, column, s.colors, line, Done(s) + [line]) && Done(a) == Done(s)
  {
    var a := ColumnStep(s, column);
    LinesFromDone(a);
  }

  /** Two column steps in a row paint what one step to the farther column paints. */
  lemma ColumnStepTwice(s: State, first: nat, second: nat)
    requires Aliased(s) && s.column < first <= second
    ensures ColumnStep(ColumnStep(s, first), second) == ColumnStep(s, second)
  {
    if second > first {
      var a := ColumnStep(s, first);
      ColumnStepGrows(s, first);
      ColumnStepGrows(a, second);
      ColumnStepGrows(s, second);
      PushMerges(s.line, Top(s.colors), first - s.column, second - first);
    }
  }

  /** A node whose start and end coincide opens and closes its colour without painting anything. */
  lemma ZeroWidthSpan(s: State, color: ColorCode, row: nat, column: nat)
    requires Aliased(s)
    ensures End(Start(s, color, row, column), row, column) == AdvanceTo(s, row, column)
  {
  }

  /**
   * Zero-width neutrality: a zero-width node at a point between the cursor and the next
   * point the encoder advances to changes nothing in the state reached there.
   */
  lemma ZeroWidthSpanInvisible(s: State, color: ColorCode, p: Position, q: Position)
    requires Aliased(s) && AtOrBefore(Cursor(s), p) && AtOrBefore(p, q)
    ensures AdvanceTo(End(Start(s, color, p.row, p.column), p.row, p.column), q.row, q.column)
         == AdvanceTo(s, q.row, q.column)
  {
    ZeroWidthSpan(s, color, p.row, p.column);
    AdvanceToSplits(s, p, q);
  }

  // ---------------------------------------------------------------------------
  // What render sends

  /**
   * The wire form of one rendered line: colour/length pairs, at least one, no two
   * neighbouring colours equal, every length but the last positive.
   */
  predicate WireLine(cells: seq<Option<int>>) {
    |cells| >= 2 && |cells| % 2 == 0 &&
    (forall k :: 0 <= k < |cells| - 2 && k % 2 == 0 ==> cells[k] != cells[k + 2]) &&
    (forall k :: 0 <= k < |cells| - 2 && k % 2 == 1 ==> cells[k].Some? && cells[k].value > 0) &&
    cells[|cells| - 1].Some?
  }

  /** The last length of a rendered line: EOL for a closed line. */
  function LastLength(cells: seq<Option<int>>): Option<int>
    requires |cells| > 0
  {
    cells[|cells| - 1]
  }

  lemma {:induction false} RenderClosedLine(line: seq<Run>)
    requires ClosedLine(line)
    ensures WireLine(RenderLine(line)) && LastLength(RenderLine(line)) == Some(EOL)
  {
    var cells := RenderLine(line);
    forall k | 0 <= k < |cells| - 2 && k % 2 == 0 ensures cells[k] != cells[k + 2] {
      assert cells[k] == line[|line| - 1 - k / 2].color;
      assert cells[k + 2] == line[|line| - 1 - (k + 2) / 2].color;
    }
  }

  lemma {:induction false} RenderOpenLine(line: seq<Run>)
    requires OpenLine(line) && |line| > 0
    ensures WireLine(RenderLine(line)) && LastLength(RenderLine(line)) != Some(EOL)
  {
    var cells := RenderLine(line);
    forall k | 0 <= k < |cells| - 2 && k % 2 == 0 ensures cells[k] != cells[k + 2] {
      assert cells[k] == line[|line| - 1 - k / 2].color;
      assert cells[k + 2] == line[|line| - 1 - (k + 2) / 2].color;
    }
  }

  /**
   * `render` of a well-formed encoder sends one entry per line that received a run, in
   * order; each closed line ends with the EOL length, and the last entry may be the open
   * line, which has only finite lengths.
   */
  lemma RenderWireFormat(s: State, origin: nat)
    requires Valid(s, origin)
    ensures |Render(s)| == |s.lines|
    ensures forall i :: 0 <= i < |Render(s)| ==>
              WireLine(Render(s)[i]) && (LastLength(Render(s)[i]) == Some(EOL) <==> i < |Done(s)|)
  {
    LinesFromDone(s);
    forall i | 0 <= i < |s.lines|
      ensures WireLine(Render(s)[i]) && (LastLength(Render(s)[i]) == Some(EOL) <==> i < |Done(s)|)
    {
      if i < |Done(s)| {
        assert s.lines[i] == Done(s)[i];
        RenderClosedLine(s.lines[i]);
      } else {
        RenderOpenLine(s.line);
      }
    }
  }

  // ---------------------------------------------------------------------------
  // Painting in the colour on top of the stack

  /** Every run of every line carries a colour code: nothing was painted in `null`. */
  predicate Painted(s: State) {
    (forall i, j :: 0 <= i < |s.lines| && 0 <= j < |s.lines[i]| ==> s.lines[i][j].color.Some?) &&
    (forall j :: 0 <= j < |s.line| ==> s.line[j].color.Some?)
  }

  /** A run in a colour code keeps a line free of `null` runs. */
  lemma PushPainted(line: seq<Run>, color: Color, distance: nat)
    requires color.Some? && forall j :: 0 <= j < |line| ==> line[j].color.Some?
    ensures forall j :: 0 <= j < |Push(line, color, distance)| ==> Push(line, color, distance)[j].color.Some?
  {
  }

  /** `extend_line` under a colour code on top of the stack paints no `null` run. */
  lemma ExtendLinePainted(s: State, distance: nat)
    requires Aliased(s) && Painted(s) && Top(s.colors).Some?
    ensures Painted(ExtendLine(s, distance))
  {
    PushPainted(s.line, Top(s.colors), distance);
    assert forall i :: 0 <= i < |Done(s)| ==> Done(s)[i] == s.lines[i];
  }

  /** `advance_to` under a colour code on top of the stack paints no `null` run. */
  lemma {:induction false} AdvanceToPainted(s: State, row: nat, column: nat)
    requires Aliased(s) && Painted(s) && Top(s.colors).Some?
    ensures Painted(AdvanceTo(s, row, column))
    decreases row - s.row
  {
    if row > s.row {
      WrapPainted(s);
      AdvanceToPainted(Wrap(s), row, column);
    } else {
      ColumnStepPainted(s, column);
    }
  }

  lemma WrapPainted(s: State)
    requires Aliased(s) && Painted(s) && Top(s.colors).Some?
    ensures Painted(Wrap(s)) && Top(Wrap(s).colors).Some?
  {
    ExtendLinePainted(s, EOL);
  }

  lemma ColumnStepPainted(s: State, column: nat)
    requires Aliased(s) && Painted(s) && Top(s.colors).Some?
    ensures Painted(ColumnStep(s, column))
  {
    if column > s.column {
      ExtendLinePainted(s, column - s.column);
    }
  }

  /** Advancing to the cursor itself paints nothing. */
  lemma AdvanceToCursor(s: State)
    requires Aliased(s)
    ensures AdvanceTo(s, s.row, s.column) == s
  {
  }

  /** An encoder with no `null` run sends a colour code, 1 to 9, in every colour cell. */
  lemma RenderPainted(s: State)
    requires Painted(s)
    ensures forall i, k :: 0 <= i < |Render(s)| && 0 <= k < |Render(s)[i]| && k % 2 == 0 ==>
              Render(s)[i][k].Some? && PLAIN <= Render(s)[i][k].value <= COMMENT
  {
    forall i, k | 0 <= i < |Render(s)| && 0 <= k < |Render(s)[i]| && k % 2 == 0
      ensures Render(s)[i][k].Some? && PLAIN <= Render(s)[i][k].value <= COMMENT
    {
      var line := s.lines[i];
      assert Render(s)[i][k] == line[|line| - 1 - k / 2].color;
    }
  }
}
