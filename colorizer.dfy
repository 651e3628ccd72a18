/**
 * The Colorizer class of server.js (lines 52-125): the fields are updated in place by
 * its methods, and each method is proved to take the state to exactly the state that
 * the matching function of EncoderState describes. The constructor establishes the
 * encoder invariant and `start` and `end` keep it; `extend_line` and `advance_to` alone
 * need not (a single run breaks the sum until the cursor moves with it).
 */
module Encoder {
  import opened Wrappers
  import opened Classifier
  import S = EncoderState

  class Colorizer {
    var row: nat
    var column: nat
    /** The colour stack, innermost first. */
    var colors: seq<S.Color>
    /** The current line, newest run first. */
    var line: seq<S.Run>
    /** Every line that has received a run; the last one is the current line while it has runs. */
    var lines: seq<seq<S.Run>>
    /** The column the encoder was created at: where the first line's runs begin. */
    ghost const origin: nat

    function State(): S.State
      reads this
    {
      S.State(row, column, colors, line, lines)
    }

    ghost predicate Valid()
      reads this
    {
      S.Valid(State(), origin)
    }

    constructor (row: nat, column: nat)
      ensures Valid() && State() == S.Init(row, column) && origin == column
    {
      this.row := row;
      this.column := column;
      this.colors := [None];
      this.line := [];
      this.lines := [];
      this.origin := column;
    }

    /** `extend_line`: a run of `distance` characters, or EOL, in the colour on top of the stack. */
    method ExtendLine(distance: nat)
      requires S.Aliased(State())
      modifies this
      ensures State() == S.ExtendLine(old(State()), distance)
    {
      if |line| == 0 {
        lines := lines + [line];
      }
      var top := S.Top(colors);
      if |line| > 0 && line[0].color == top {
        // extend the newest run, which has the same colour
        if distance == EOL {
          line := [S.Run(top, EOL)] + line[1..];
        } else {
          line := [S.Run(top, line[0].distance + distance)] + line[1..];
        }
      } else {
        line := [S.Run(top, distance)] + line;
      }
      // the last entry of `lines` is the current line itself
      lines := lines[..|lines| - 1] + [line];
      if distance == EOL {
        line := [];
      }
    }

    /** `advance_to`: close one line per row crossed, then paint up to the target column. */
    method AdvanceTo(row: nat, column: nat)
      requires S.Aliased(State())
      modifies this
      ensures State() == S.AdvanceTo(old(State()), row, column)
    {
      while row > this.row
        invariant S.Aliased(State())
        invariant S.AdvanceTo(State(), row, column) == S.AdvanceTo(old(State()), row, column)
        decreases row - this.row
      {
        ghost var next := S.Wrap(State());
        ExtendLine(EOL);
        this.row := this.row + 1;
        this.column := 0;
        assert State() == next;
      }
      ghost var before := State();
      assert S.AdvanceTo(before, row, column) == S.ColumnStep(before, column);
      if column > this.column {
        ExtendLine(column - this.column);
        this.column := column;
      }
      assert State() == S.ColumnStep(before, column);
    }

    /** `start`: paint up to the node's start in the enclosing colour, then open `color`. */
    method Start(color: ColorCode, row: nat, column: nat)
      requires Valid()
      modifies this
      ensures Valid()
      ensures State() == S.Start(old(State()), color, row, column)
    {
      S.StartPreservesValid(State(), origin, color, row, column);
      AdvanceTo(row, column);
      colors := [Some(color)] + colors;
    }

    /** `end`: paint up to the node's end in its own colour, then close it. */
    method End(row: nat, column: nat)
      requires Valid()
      modifies this
      ensures Valid()
      ensures State() == S.End(old(State()), row, column)
    {
      S.EndPreservesValid(State(), origin, row, column);
      AdvanceTo(row, column);
      if |colors| > 0 {
        colors := colors[1..];
      }
    }

    /** `render`: every line in forward order, flattened to colour, length, colour, length, ... */
    function Render(): (r: seq<seq<Option<int>>>)
      requires Valid()
      reads this
      ensures |r| == |lines|
      ensures forall i :: 0 <= i < |r| ==>
                S.WireLine(r[i]) && (S.LastLength(r[i]) == Some(EOL) <==> i < |S.Done(State())|)
    {
      S.RenderWireFormat(State(), origin);
      S.Render(State())
    }
  }
}
