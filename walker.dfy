/**
 * The recursive walk `process_node` of server.js (lines 145-183) and the pipeline
 * `source_to_colors` around it (lines 128-186). The walk is described by the sequence
 * of start/end calls it makes on the colourizer; the method is proved to make exactly
 * those calls, and the lemmas show that they are balanced (the colour stack ends as it
 * began), that a coloured node's colour is on top of the stack after its start, at every
 * boundary between its children and when its end paints (inside a coloured child the
 * child's colour is on top), so that a coloured root sends only colour codes, and, for a
 * tree with tree-sitter's ordering, that the calls name their positions in document
 * order, so that each call moves the cursor exactly to its own position.
 */
module Walker {
  import opened Wrappers
  import opened Classifier
  import opened Syntax
  import S = EncoderState
  import Encoder

  /** One call on the colourizer: `start(color, position)` or `end(position)`. */
  datatype Event = Open(color: ColorCode, at: Position) | Close(at: Position)

  function Step(s: S.State, e: Event): (r: S.State)
    requires S.Aliased(s)
    ensures S.Aliased(r)
  {
    match e
    case Open(color, p) => S.Start(s, color, p.row, p.column)
    case Close(p) => S.End(s, p.row, p.column)
  }

  /** The state after making the calls `events` in order. */
  function Run(s: S.State, events: seq<Event>): (r: S.State)
    requires S.Aliased(s)
    ensures S.Aliased(r)
    decreases |events|
  {
    if |events| == 0 then s else Run(Step(s, events[0]), events[1..])
  }

  /**
   * The calls made for node `n`: a coloured node is bracketed by a start at its start
   * position and an end at its end position; an uncoloured one only passes its children on.
   */
  function Events(n: Node): seq<Event>
    decreases n, |n.children| + 1
  {
    match Classify(n.kind)
    case Some(color) => [Open(color, n.startPosition)] + ChildEvents(n, 0) + [Close(n.endPosition)]
    case None => ChildEvents(n, 0)
  }

  /** The calls made for the children of `n` from index `i` on, in order. */
  function ChildEvents(n: Node, i: nat): seq<Event>
    requires i <= |n.children|
    decreases n, |n.children| - i
  {
    if i == |n.children| then [] else Events(n.children[i]) + ChildEvents(n, i + 1)
  }

  /** The colour rows sent back for a tree: walk it with an encoder created at the root's start. */
  function Colors(root: Node): seq<seq<Option<int>>> {
    S.Render(Run(S.Init(root.startPosition.row, root.startPosition.column), Events(root)))
  }

  lemma {:induction false} RunAppend(s: S.State, a: seq<Event>, b: seq<Event>)
    requires S.Aliased(s)
    ensures Run(s, a + b) == Run(Run(s, a), b)
    decreases |a|
  {
    if |a| > 0 {
      assert (a + b)[0] == a[0] && (a + b)[1..] == a[1..] + b;
      RunAppend(Step(s, a[0]), a[1..], b);
    } else {
      assert a + b == b;
    }
  }

  lemma {:induction false} RunPreservesValid(s: S.State, origin: nat, events: seq<Event>)
    requires S.Valid(s, origin)
    ensures S.Valid(Run(s, events), origin)
    decreases |events|
  {
    if |events| > 0 {
      match events[0] {
        case Open(color, p) => S.StartPreservesValid(s, origin, color, p.row, p.column);
        case Close(p) => S.EndPreservesValid(s, origin, p.row, p.column);
      }
      RunPreservesValid(Step(s, events[0]), origin, events[1..]);
    }
  }

  /** The calls for a node leave the colour stack exactly as they found it. */
  lemma {:induction false} EventsRestoreStack(s: S.State, n: Node)
    requires S.Aliased(s)
    ensures Run(s, Events(n)).colors == s.colors
    decreases n, |n.children| + 1
  {
    var children := ChildEvents(n, 0);
    match Classify(n.kind)
    case Some(color) =>
      var open := Step(s, Open(color, n.startPosition));
      RunAppend(s, [Open(color, n.startPosition)] + children, [Close(n.endPosition)]);
      RunAppend(s, [Open(color, n.startPosition)], children);
      ChildEventsRestoreStack(open, n, 0);
    case None =>
      ChildEventsRestoreStack(s, n, 0);
  }

  lemma {:induction false} ChildEventsRestoreStack(s: S.State, n: Node, i: nat)
    requires S.Aliased(s) && i <= |n.children|
    ensures Run(s, ChildEvents(n, i)).colors == s.colors
    decreases n, |n.children| - i
  {
    if i < |n.children| {
      RunAppend(s, Events(n.children[i]), ChildEvents(n, i + 1));
      EventsRestoreStack(s, n.children[i]);
      ChildEventsRestoreStack(Run(s, Events(n.children[i])), n, i + 1);
    }
  }

  // ---------------------------------------------------------------------------
  // The walk visits the positions of a well-formed tree in document order

  /** The position a call advances the cursor to. */
  function At(e: Event): Position {
    match e
    case Open(_, p) => p
    case Close(p) => p
  }

  /** The targets of `events` follow `from` and one another in document order, and `to` follows them all. */
  predicate Chain(from: Position, events: seq<Event>, to: Position)
    decreases |events|
  {
    if |events| == 0 then AtOrBefore(from, to)
    else AtOrBefore(from, At(events[0])) && Chain(At(events[0]), events[1..], to)
  }

  lemma ChainFrom(a: Position, b: Position, events: seq<Event>, to: Position)
    requires AtOrBefore(a, b) && Chain(b, events, to)
    ensures Chain(a, events, to)
  {
  }

  lemma {:induction false} ChainAppend(a: Position, x: seq<Event>, b: Position, y: seq<Event>, c: Position)
    requires Chain(a, x, b) && Chain(b, y, c)
    ensures Chain(a, x + y, c)
    decreases |x|
  {
    if |x| == 0 {
      assert x + y == y;
      ChainFrom(a, b, y, c);
    } else {
      assert (x + y)[0] == x[0] && (x + y)[1..] == x[1..] + y;
      ChainAppend(At(x[0]), x[1..], b, y, c);
    }
  }

  /** Where the walk of the children of `n` from index `i` on starts: the end of the child before. */
  function ChildFrom(n: Node, i: nat): Position
    requires i <= |n.children|
  {
    if i == 0 then n.startPosition else n.children[i - 1].endPosition
  }

  /** For a well-formed tree, the calls for a node lie inside its span, in document order. */
  lemma {:induction false} EventsChain(n: Node)
    requires WellFormed(n)
    ensures Chain(n.startPosition, Events(n), n.endPosition)
    decreases n, |n.children| + 1
  {
    var children := ChildEvents(n, 0);
    ChildEventsChain(n, 0);
    match Classify(n.kind)
    case Some(color) =>
      var open, close := Open(color, n.startPosition), Close(n.endPosition);
      assert Chain(n.startPosition, [open], n.startPosition);
      assert Chain(n.endPosition, [close], n.endPosition);
      ChainAppend(n.startPosition, [open], n.startPosition, children, n.endPosition);
      ChainAppend(n.startPosition, [open] + children, n.endPosition, [close], n.endPosition);
    case None =>
  }

  lemma {:induction false} ChildEventsChain(n: Node, i: nat)
    requires WellFormed(n) && i <= |n.children|
    ensures Chain(ChildFrom(n, i), ChildEvents(n, i), n.endPosition)
    decreases n, |n.children| - i
  {
    if i < |n.children| {
      var c := n.children[i];
      EventsChain(c);
      ChainFrom(ChildFrom(n, i), c.startPosition, Events(c), c.endPosition);
      ChildEventsChain(n, i + 1);
      ChainAppend(ChildFrom(n, i), Events(c), c.endPosition, ChildEvents(n, i + 1), n.endPosition);
    }
  }

  /** A call whose target is not behind the cursor moves the cursor exactly to that target. */
  lemma StepReaches(s: S.State, e: Event)
    requires S.Aliased(s) && AtOrBefore(S.Cursor(s), At(e))
    ensures S.Cursor(Step(s, e)) == At(e)
  {
  }

  /**
   * Calls made in document order, none behind the cursor, each move the cursor to its own
   * target: at the end the cursor is on the last target, and never past `to`.
   */
  lemma {:induction false} RunReaches(s: S.State, events: seq<Event>, to: Position)
    requires S.Aliased(s) && Chain(S.Cursor(s), events, to)
    ensures AtOrBefore(S.Cursor(Run(s, events)), to)
    ensures |events| > 0 ==> S.Cursor(Run(s, events)) == At(events[|events| - 1])
    decreases |events|
  {
    if |events| > 0 {
      StepReaches(s, events[0]);
      RunReaches(Step(s, events[0]), events[1..], to);
      if |events| > 1 {
        assert events[1..][|events| - 2] == events[|events| - 1];
      }
    }
  }

  /**
   * The walk of a well-formed tree, begun with the cursor at or before the root's start,
   * never leaves the root's span, and when the root is coloured (as the `program` root
   * always is) it paints exactly up to the root's end.
   */
  lemma WalkReachesEnd(s: S.State, root: Node)
    requires S.Aliased(s) && WellFormed(root) && AtOrBefore(S.Cursor(s), root.startPosition)
    ensures AtOrBefore(S.Cursor(Run(s, Events(root))), root.endPosition)
    ensures Classify(root.kind).Some? ==> S.Cursor(Run(s, Events(root))) == root.endPosition
  {
    EventsChain(root);
    ChainFrom(S.Cursor(s), root.startPosition, Events(root), root.endPosition);
    RunReaches(s, Events(root), root.endPosition);
  }

  /**
   * After the walk of any tree the colour stack is back to the single `null` it was
   * created with, and every line sent back has the wire form of a rendered line.
   */
  lemma WalkResult(root: Node)
    ensures var s := Run(S.Init(root.startPosition.row, root.startPosition.column), Events(root));
            s.colors == [None] &&
            |Colors(root)| == |s.lines| &&
            forall i :: 0 <= i < |s.lines| ==>
              S.WireLine(Colors(root)[i]) && (S.LastLength(Colors(root)[i]) == Some(EOL) <==> i < |S.Done(s)|)
  {
    var init := S.Init(root.startPosition.row, root.startPosition.column);
    EventsRestoreStack(init, root);
    RunPreservesValid(init, root.startPosition.column, Events(root));
    S.RenderWireFormat(Run(init, Events(root)), root.startPosition.column);
  }

  // ---------------------------------------------------------------------------
  // Nesting: every position is painted in the colour of its innermost coloured node

  /**
   * The calls for a coloured node of colour `c`: its `start` opens `c`, the children's calls
   * leave `c` on top of the stack, and its `end` paints up to the node's end in `c` before
   * closing it. Since every child's calls restore the stack (EventsRestoreStack), `c` is on
   * top at every child boundary too, so the gaps between children are painted in `c`.
   */
  lemma NodeNesting(s: S.State, n: Node, c: ColorCode)
    requires S.Aliased(s) && Classify(n.kind) == Some(c)
    ensures var open := S.Start(s, c, n.startPosition.row, n.startPosition.column);
            var x := Run(open, ChildEvents(n, 0));
            x.colors == [Some(c)] + s.colors && S.Top(x.colors) == Some(c) &&
            Run(s, Events(n)) == S.End(x, n.endPosition.row, n.endPosition.column)
  {
    var open := S.Start(s, c, n.startPosition.row, n.startPosition.column);
    var children := ChildEvents(n, 0);
    ChildEventsRestoreStack(open, n, 0);
    RunAppend(s, [Open(c, n.startPosition)] + children, [Close(n.endPosition)]);
    RunAppend(s, [Open(c, n.startPosition)], children);
  }

  /** Under a colour code on top of the stack, the calls for a node paint no `null` run. */
  lemma {:induction false} EventsPainted(s: S.State, n: Node)
    requires S.Aliased(s) && S.Painted(s) && S.Top(s.colors).Some?
    ensures S.Painted(Run(s, Events(n)))
    decreases n, |n.children| + 1
  {
    match Classify(n.kind)
    case Some(c) =>
      NodeNesting(s, n, c);
      S.AdvanceToPainted(s, n.startPosition.row, n.startPosition.column);
      var open := S.Start(s, c, n.startPosition.row, n.startPosition.column);
      ChildEventsPainted(open, n, 0);
      var x := Run(open, ChildEvents(n, 0));
      S.AdvanceToPainted(x, n.endPosition.row, n.endPosition.column);
    case None =>
      ChildEventsPainted(s, n, 0);
  }

  lemma {:induction false} ChildEventsPainted(s: S.State, n: Node, i: nat)
    requires S.Aliased(s) && S.Painted(s) && S.Top(s.colors).Some? && i <= |n.children|
    ensures S.Painted(Run(s, ChildEvents(n, i)))
    decreases n, |n.children| - i
  {
    if i < |n.children| {
      RunAppend(s, Events(n.children[i]), ChildEvents(n, i + 1));
      EventsPainted(s, n.children[i]);
      EventsRestoreStack(s, n.children[i]);
      ChildEventsPainted(Run(s, Events(n.children[i])), n, i + 1);
    }
  }

  /**
   * When the root is coloured (the `program` root always is), every colour sent back is a
   * colour code from 1 to 9: no run is painted in `null`.
   */
  lemma WireColours(root: Node)
    requires Classify(root.kind).Some?
    ensures forall i, k :: 0 <= i < |Colors(root)| && 0 <= k < |Colors(root)[i]| && k % 2 == 0 ==>
              Colors(root)[i][k].Some? && PLAIN <= Colors(root)[i][k].value <= COMMENT
  {
    RootPainted(root);
    S.RenderPainted(Run(S.Init(root.startPosition.row, root.startPosition.column), Events(root)));
  }

  /** The walk from a coloured root paints no `null` run: the root's colour is under everything. */
  lemma RootPainted(root: Node)
    requires Classify(root.kind).Some?
    ensures S.Painted(Run(S.Init(root.startPosition.row, root.startPosition.column), Events(root)))
  {
    var c := Classify(root.kind).value;
    var init := S.Init(root.startPosition.row, root.startPosition.column);
    S.AdvanceToCursor(init);
    NodeNesting(init, root, c);
    var open := S.Start(init, c, root.startPosition.row, root.startPosition.column);
    ChildEventsPainted(open, root, 0);
    S.AdvanceToPainted(Run(open, ChildEvents(root, 0)), root.endPosition.row, root.endPosition.column);
  }

  /** `process_node`: start the node's colour, walk the children in order, end the colour. */
  method ProcessNode(c: Encoder.Colorizer, n: Node)
    requires c.Valid()
    modifies c
    ensures c.Valid()
    ensures c.State() == Run(old(c.State()), Events(n))
    decreases n
  {
    ghost var initial := c.State();
    var color := Classify(n.kind);
    if color.Some? {
      c.Start(color.value, n.startPosition.row, n.startPosition.column);
    }
    ghost var entered := c.State();
    for i := 0 to |n.children|
      invariant c.Valid()
      invariant Run(c.State(), ChildEvents(n, i)) == Run(entered, ChildEvents(n, 0))
    {
      ghost var before := c.State();
      ProcessNode(c, n.children[i]);
      RunAppend(before, Events(n.children[i]), ChildEvents(n, i + 1));
    }
    ghost var walked := c.State();
    if color.Some? {
      c.End(n.endPosition.row, n.endPosition.column);
      var children := ChildEvents(n, 0);
      var open, close := Open(color.value, n.startPosition), Close(n.endPosition);
      RunAppend(initial, [open] + children, [close]);
      RunAppend(initial, [open], children);
    }
  }

  /** `source_to_colors` once the parser has produced the tree `root`. */
  method SourceToColors(root: Node) returns (r: seq<seq<Option<int>>>)
    ensures r == Colors(root)
  {
    var colorizer := new Encoder.Colorizer(root.startPosition.row, root.startPosition.column);
    ProcessNode(colorizer, root);
    r := colorizer.Render();
  }
}
