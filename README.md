# vim-treesitter colouring server, modelled in Dafny

This project models the core of the vim-treesitter colouring server (`server.js`). The
editor sends the server a line of JSON, `[id, source]`, over a TCP connection. The server
parses `source` with tree-sitter and walks the syntax tree. A run-length encoder turns the
nodes it meets into coloured runs, one list of runs per source line. The answer,
`[id, lines]`, is written back on the same connection.

The model has four parts, one per piece of the server:

- `classifier.dfy` (module `Classifier`): the colour codes, the `keywords` and `symbols`
  sets copied word for word, and the if-chain that maps a node type to a colour or to
  `null`.
- `encoder_state.dfy` (module `EncoderState`) and `colorizer.dfy` (module `Encoder`): the
  `Colorizer` class.
  - `EncoderState` describes each method as a function on a `State` value.
  - It proves the encoder's invariant: neighbouring runs differ in colour, and a closed
    line ends in its single EOL run. The open line's runs add up to the cursor column
    minus the column where that line began. That is the constructor's column until the
    first line closes, and column 0 after that.
  - It also proves what advancing paints and what `render` sends.
  - `Encoder.Colorizer` is a class whose fields are updated in place. Each of its methods
    is proved to move the fields exactly as the matching `EncoderState` function says.
- `syntax.dfy` (module `Syntax`) and `walker.dfy` (module `Walker`): the tree that
  tree-sitter returns, and the recursive `process_node` walk.
  - The walk is described by the sequence of `start`/`end` calls it makes. `ProcessNode`
    is proved to make exactly those calls.
  - The lemmas show that the calls are balanced, so the colour stack ends as `[null]`.
  - A coloured node's colour is on top of the stack after its `start`, at every boundary
    between its children and when its `end` paints; inside a coloured child the child's
    colour is on top. When the root is coloured, every colour sent back is a code from 1
    to 9.
  - For a well-formed tree, the calls name their positions in document order and each call
    moves the cursor exactly to its own position.
- `framing.dfy` (module `Framing`) and `connection.dfy` (module `Server`): the `'data'`
  handler of a connection, with its `buf`/`used` state.
  - A byte-at-a-time reading of the stream (`Feed`/`Frame`) is the reference.
  - The handler's `indexOf` loop is proved to frame the bytes exactly as that reading
    does.
  - Every complete line is decoded once, in order, and answered when it carries an `id`.
    How the stream was cut into chunks makes no difference.

`wrappers.dfy` holds the `Option` type (`None` stands for JavaScript's `null`).

Some behaviours of the code are easy to misread:

- `render` flattens each line into one list, `color, distance, color, distance, ...`
  (`server.js:120-123`); the pairs are not nested.
- The last line of a reply ends in an EOL run only when the tree ends on a later row.
  Otherwise every length of the open line is finite. A one-line tree for `x` that ends at
  column 1 is therefore sent with a final run of length 1, not with the EOL length 0.
- A line that decodes with an `id` of `null` gets no reply, even though it decoded.
  Only lines that decode with an `id` are answered.
- The colour stack can be emptied by an unbalanced `end`. Its top is then `undefined`,
  which behaves as `null` (`Top([]) == None`). Colours are therefore `Option`s.

## Model

| member | source | states |
|---|---|---|
| Classifier.Classify | server.js:148-168 | the chain itself, tried in the source's order; its contract is stated by the `Classify*` lemmas below, one per group of the chain, and by ClassifyUncoloured |
| Classifier.ClassifyPlainNumber | server.js:150-153 | PLAIN is produced exactly for `program` and `template_substitution`, NUMBER exactly for `number` |
| Classifier.ClassifyKeyword | server.js:154-155 | KEYWORD is produced exactly for the members of the keyword set; no earlier test of the chain claims one of them |
| Classifier.ClassifySymbol | server.js:156-157 | SYMBOL is produced exactly for the members of the symbol set, which no earlier test claims |
| Classifier.ClassifyStringIdentifier | server.js:158-161 | STRING exactly for `string`/`template_string`, IDENTIFIER exactly for `identifier`/`property_identifier` |
| Classifier.ClassifyEscapeErrorComment | server.js:162-168 | SPECIAL_CHAR, ERROR and COMMENT each exactly for their one type; with the lemmas above, every other type gets `null` and no type gets EOL (0) |
| Classifier.KeywordsAreWords | server.js:34 | every keyword starts with a letter |
| Classifier.SymbolsAreNotWords | server.js:36 | no symbol starts with a letter, so the keyword and symbol groups are disjoint |
| Classifier.ListQuirks | server.js:34-36 | `next` is a keyword, the empty type is a symbol (the list's trailing space), and `>` gets no colour |
| Classifier.ClassifyUncoloured | server.js:148-168 | a type is left uncoloured (`null`) exactly when it is in no group of the chain: not a keyword, not a symbol and none of the ten named types |
| EncoderState.Push | server.js:65-74 | the newest run afterwards has the pushed colour and, for EOL, the EOL length; the older runs are kept, and at most the old newest run is replaced by the merged one |
| EncoderState.ExtendLine | server.js:61-78 | the cursor and the stack are unchanged; a finite run merges into or goes in front of the newest run; EOL closes the line, appends it to the closed lines and leaves an empty current line |
| EncoderState.Wrap | server.js:81-85 | one turn of the wrap loop closes exactly one line, ended by an EOL run of the top colour, and moves the cursor to column 0 of the next row with the stack unchanged |
| EncoderState.ColumnStep | server.js:86-89 | the column step keeps `lines` aliased to the current line; what it paints is stated by ColumnStepGrows and AdvanceToWithinLine |
| EncoderState.AdvanceTo | server.js:79-90 | the stack is unchanged; the cursor never moves back; it ends on the target row when that row is ahead and stays on its own row otherwise, and the column is compared in both cases; one line is closed per row crossed; closed lines are never changed |
| EncoderState.Start | server.js:91-94 | pushes the colour after advancing: the runs and lines are exactly those `advance_to` paints under the old top, then the colour is the new top; the cursor is where `advance_to` leaves it |
| EncoderState.End | server.js:95-98 | pops the stack after advancing: the runs and lines are exactly those `advance_to` paints with the node's own colour still on top, then the stack is popped (an empty stack stays empty); the cursor is where `advance_to` leaves it |
| EncoderState.RenderLine | server.js:120-123 | a rendered line has two cells per run, the runs read in forward order as colour then length |
| EncoderState.Render | server.js:118-124 | every line that received a run, rendered in order; its contract is stated by RenderWireFormat and RenderPainted |
| EncoderState.LinesFromDone | server.js:62-64 | `lines` is the closed lines followed by the current line once that line has a run |
| EncoderState.Init | server.js:53-59 | a new encoder satisfies the encoder invariant with its first line beginning at the given column, has `null` on top of the stack, and has nothing to send |
| EncoderState.PushFinite | server.js:65-74 | a finite run keeps neighbouring colours distinct and all lengths positive, and adds exactly its distance to the line's sum |
| EncoderState.PushEol | server.js:65-77 | an EOL run turns a well-formed open line into a closed line whose newest run, and only that run, is EOL |
| EncoderState.PushMerges | server.js:65-74 | two runs of one colour in a row leave the line one run of their total length would leave |
| EncoderState.AdvanceToPreservesValid | server.js:79-90 | `advance_to` keeps the invariant: closed lines well formed, the open line distinct and positive, its sum equal to the cursor column minus the line's starting column |
| EncoderState.WrapPreservesValid | server.js:81-85 | closing a line keeps the invariant, and the next line starts at column 0 |
| EncoderState.ColumnStepPreservesValid | server.js:86-89 | the column step keeps the invariant |
| EncoderState.StartPreservesValid | server.js:91-94 | `start` keeps the invariant |
| EncoderState.EndPreservesValid | server.js:95-98 | `end` keeps the invariant |
| EncoderState.AdvanceToCrossesLines | server.js:81-89 | crossing rows closes the current line with an EOL run of the top colour; every further row crossed is a line of one EOL run of that colour; the target row starts with one run of that colour up to the target column, or none at column 0 |
| EncoderState.AdvanceToWithinLine | server.js:86-89 | on the same row nothing is closed, and a run of the top colour is added only when the column grows |
| EncoderState.AdvanceToSplits | server.js:79-90 | advancing through any intermediate point paints exactly what one advance to the target paints |
| EncoderState.WrapAfterColumnStep | server.js:65-85 | a run followed by a line break closes the same line as the line break alone |
| EncoderState.ColumnStepGrows | server.js:86-89 | a column step that moves the cursor adds one run to the current line and closes no line |
| EncoderState.ColumnStepTwice | server.js:86-89 | two column steps in a row paint what one step to the farther column paints |
| EncoderState.ZeroWidthSpan | server.js:91-98 | a `start` and `end` at the same point paint nothing beyond advancing to that point |
| EncoderState.ZeroWidthSpanInvisible | server.js:91-98 | a zero-width node between the cursor and the next point advanced to leaves the state reached there unchanged |
| EncoderState.RenderClosedLine | server.js:118-123 | a closed line renders as pairs with neighbouring colours distinct, every length but the last positive, and the last length EOL |
| EncoderState.RenderOpenLine | server.js:118-123 | a non-empty open line renders in the same form, with a last length that is not EOL |
| EncoderState.RenderWireFormat | server.js:118-124 | `render` sends one entry per line, in order; each is in wire form, and exactly the closed lines end in EOL |
| EncoderState.PushPainted | server.js:65-74 | a run in a colour code leaves a line without `null` runs |
| EncoderState.ExtendLinePainted | server.js:61-78 | under a colour code on top of the stack, `extend_line` paints no `null` run |
| EncoderState.WrapPainted | server.js:81-85 | under a colour code on top of the stack, a wrap paints no `null` run and keeps that top |
| EncoderState.ColumnStepPainted | server.js:86-89 | under a colour code on top of the stack, the column step paints no `null` run |
| EncoderState.AdvanceToPainted | server.js:79-90 | under a colour code on top of the stack, `advance_to` paints no `null` run |
| EncoderState.AdvanceToCursor | server.js:79-90 | advancing to the cursor's own position changes nothing |
| EncoderState.RenderPainted | server.js:118-124 | when no run is `null`, every colour cell `render` sends is a colour code from 1 to 9 |
| Encoder.Colorizer.constructor | server.js:53-59 | the fields hold the starting cursor, the stack `[null]` and no lines, and the invariant holds |
| Encoder.Colorizer.ExtendLine | server.js:61-78 | the fields are updated in place to exactly `EncoderState.ExtendLine` of the old state |
| Encoder.Colorizer.AdvanceTo | server.js:79-90 | the wrap loop and the column step take the fields to exactly `EncoderState.AdvanceTo` of the old state |
| Encoder.Colorizer.Start | server.js:91-94 | the fields become `EncoderState.Start` of the old state, and the invariant is kept |
| Encoder.Colorizer.End | server.js:95-98 | the fields become `EncoderState.End` of the old state, and the invariant is kept |
| Encoder.Colorizer.Render | server.js:118-124 | one entry per line, each in wire form, exactly the closed ones ending in EOL; reads the fields and changes nothing |
| Walker.Events | server.js:145-183 | the calls a node makes: `start` and `end` around its children's calls when the node is coloured, only the children's calls otherwise; stated by EventsRestoreStack, EventsChain, NodeNesting and ProcessNode |
| Walker.ChildEvents | server.js:174-176 | the children's calls, in order; stated by ChildEventsRestoreStack and ChildEventsChain |
| Walker.RunAppend | server.js:174-176 | making two sequences of calls one after the other is making their concatenation |
| Walker.RunPreservesValid | server.js:145-183 | any sequence of `start`/`end` calls keeps the encoder invariant |
| Walker.EventsRestoreStack | server.js:145-183 | the calls made for a node leave the colour stack exactly as they found it |
| Walker.ChildEventsRestoreStack | server.js:174-176 | the calls made for the remaining children leave the colour stack as they found it |
| Walker.EventsChain | server.js:145-183 | for a well-formed tree, the calls for a node name positions inside its span, in document order |
| Walker.ChildEventsChain | server.js:174-176 | the calls for the children from index `i` on follow the end of the child before, in document order, and stay within the parent |
| Walker.NodeNesting | server.js:170-182 | for a node of colour `c`, `c` is on top of the stack after its `start` and after all its children's calls, the stack is the old one with `c` pushed, and the node's calls end with an `end` that paints up to the node's end in `c` |
| Walker.EventsPainted | server.js:145-183 | under a colour code on top of the stack, a node's calls paint no `null` run |
| Walker.ChildEventsPainted | server.js:174-176 | under a colour code on top of the stack, the children's calls paint no `null` run |
| Walker.RootPainted | server.js:143-183 | the walk from a coloured root paints no `null` run: the root's `start` paints nothing, and the root's colour is under everything after it |
| Walker.WireColours | server.js:143-185 | when the root is coloured, every colour cell of the result is a colour code from 1 to 9 |
| Walker.StepReaches | server.js:170-182 | a call whose position is not behind the cursor moves the cursor exactly to that position |
| Walker.RunReaches | server.js:145-183 | calls in document order, none behind the cursor, leave the cursor on the last call's position and never past the bound |
| Walker.WalkReachesEnd | server.js:143-183 | the walk of a well-formed tree stays within the root's span and, for a coloured root, ends with the cursor on the root's end |
| Walker.WalkResult | server.js:143-185 | after the walk the stack is `[null]` again, and the result has one wire-form entry per line, exactly the closed ones ending in EOL |
| Walker.ProcessNode | server.js:145-183 | the recursive walk makes exactly the node's calls on the colourizer, in order, and keeps the invariant |
| Walker.SourceToColors | server.js:128-186 | the result is the render of a fresh encoder at the root's start after the root's calls |
| Framing.IndexOf | server.js:204 | the result is -1 when no byte from `from` on is `x`; otherwise it is the first position at or after `from` holding `x` |
| Framing.Scan | server.js:203-220 | the lines the `indexOf` loop cuts from an offset, and the bytes it leaves; stated by ScanIsFrame, which equates it with the byte-by-byte reading |
| Framing.FeedAppend | server.js:197-202 | reading two pieces of the stream one after the other is reading their concatenation |
| Framing.FeedKeepsLines | server.js:204-219 | lines already read are never revisited; more bytes only append lines |
| Framing.FeedNoNewline | server.js:204 | bytes without a newline only lengthen the partial line |
| Framing.FrameAtNewline | server.js:204-206 | the bytes before the first newline form the first line, and reading goes on after it |
| Framing.FrameFrom | server.js:204-219 | the same from any offset, as the loop consumes the buffer from `used` |
| Framing.FrameNoNewline | server.js:204 | without a newline nothing is complete |
| Framing.ScanIsFrame | server.js:203-220 | scanning with `indexOf` from an offset frames the rest of the buffer exactly as reading it byte by byte |
| Framing.FeedRoundTrip | server.js:197-225 | the general form of FrameRoundTrip, for a reading already under way |
| Framing.JoinAppend | server.js:204-219 | joining one more line adds that line and its newline at the end |
| Framing.FrameRoundTrip | server.js:197-225 | the complete lines, each with its newline, followed by the partial line give back the stream byte for byte; no line and no partial line holds a newline |
| Framing.ChunksAreInvisible | server.js:193-202 | framing `a`, then the partial line followed by `b`, gives the same lines and partial line as framing `a + b` |
| Server.Connection.constructor | server.js:189-192 | a new connection has `buf` null, `used` 0, nothing written, and the given decoding |
| Server.Connection.OnData | server.js:193-227 | appends to what is written the replies to exactly the complete lines of the old partial line plus the chunk, in order; the new partial line is what is left; unconsumed bytes hold no newline; `buf` is null exactly when nothing is pending |
| Server.Connection.Drain | server.js:203-220 | the loop answers every line the scan from `used` finds, in order, and stops with `used` at the start of the unterminated rest |
| Server.Connection.Consume | server.js:204-219 | one turn answers the line ending at `eol`, moves `used` forward past it and finds the next newline; the replies still owed stay as they were |
| Server.Connection.Finished | server.js:204 | once no newline is found, no line is left to answer and the rest is the partial line |
| Server.Connection.Release | server.js:221-225 | a buffer consumed to its end is dropped and `used` reset; the pending bytes are unchanged, and `buf` is null exactly when none are pending |
| Framing.ScanResumes | server.js:197-204 | scanning the grown buffer from `used` frames the old pending bytes followed by the chunk |
| Server.Connection.Reply | server.js:206-218 | the writes one line calls for: one when it decodes with an `id` that is not `null`, none otherwise; stated through Answer |
| Server.Connection.Replies | server.js:203-220 | the writes a run of lines calls for, line by line; stated by RepliesCons and RepliesAppend |
| Server.Connection.Answer | server.js:206-218 | one write exactly when the line decodes with an `id` that is not null, nothing otherwise |
| Server.Connection.AnswerLine | server.js:204-219 | answering the line at `eol` and moving past it leaves the replies still owed unchanged |
| Server.Connection.RepliesCons | server.js:204-219 | the replies to a line followed by more lines are that line's reply followed by theirs |
| Server.Connection.RepliesAppend | server.js:204-219 | the replies to two runs of lines are the concatenation of their replies |
| Server.Connection.ChunkingIsInvisible | server.js:193-227 | two chunks write the same replies and leave the same partial line as their concatenation in one chunk |

## Left out

- The signal handlers and `process.exit` (`server.js:6-13`) concern the process lifecycle.
- `net.createServer`, `listen`, the port constant and the `'end'`/`'error'` events
  (`server.js:15`, `189-190`, `228-236`) are network I/O. One connection's `'data'`
  handler is modelled. Connections share no state, so concurrency across connections is
  not modelled.
- The tree-sitter parser (`server.js:129-132`) is a foreign library.
  - It is replaced by the `Syntax.Node` tree.
  - `Syntax.WellFormed` states the ordering tree-sitter guarantees; only the lemmas
    about document order assume it.
  - Positions are natural numbers.
- UTF-8 decoding, `JSON.parse` and the destructuring into `[id, source]` (`server.js:206-213`)
  are modelled by the connection's `decode` map. A line outside its domain is one on which
  they throw, so no reply is sent.
  - `Server.Message.source` is a string, so the model cannot represent a line that decodes
    with a non-null `id` and a `source` that is not a string: `[1, 2]`, `[1, null]`, or a
    missing `source`. Nor can it represent a line whose `id` is `undefined`.
  - For such a line `server.js:215` passes the value to `source_to_colors`. There
    `parser.parse` (`server.js:131`) throws on anything but a string or a callback.
  - Nothing in the `'data'` handler catches that throw, so it ends the process and every
    connection with it. The model does not capture this. `decode` either leaves such a
    line out of its domain (no reply, and the connection goes on) or maps it to some string.
- `JSON.stringify` of the reply and `connection.write` (`server.js:215-216`): a reply is
  recorded as the `id` and `source` it is computed from. Its colouring part is
  `Walker.SourceToColors` of the tree the parser returns for `source`. The JSON text and
  the socket write are not modelled.
- `debug_render`, the `types` trace array and all `console.log` calls (`server.js:99-117`,
  `144`, `147`, `178`) are debug output only.
- The unbounded growth of `buf` when no newline ever arrives is modelled only as the
  unbounded `Bytes` sequence; memory limits are not modelled.
