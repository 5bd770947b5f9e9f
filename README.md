# fen-analysis position controller, in Dafny

A model of the logic of a browser chess viewer. The user moves pieces by
clicking or dragging, types a position (FEN text) into a field, or jumps back
to a recorded position; each new position is sent to a remote analysis
service, and the reply is shown in a panel beside a numbered move list.

- `types.dfy` (module `Types`): the records of `src/types.ts` (position,
  history entry, analysis request and reply) and the board vocabulary
  (squares, colours, pieces, move descriptors).
- `board.dfy` (module `Board`): the chess library the page relies on, kept
  abstract. `Rules<B>` bundles uninterpreted functions over an unspecified
  board type `B`: load a text, export the text, the piece on a square, the side
  to move, make a move, the legal moves from a square, in-check, and the full
  grid. A failure of the library, whether it throws or returns null, is `None`.
  `Game<B>` is the single shared board object, updated in place by `Load` and
  `MakeMove`.
- `app.dfy` (module `App`): the page component of `src/App.tsx`. Its state
  cells (`position`, `analysis`, `isLoading`, `error`, `selectedSquare`,
  `moveHistory`) are the fields of class `Controller`, and its handlers are
  methods. The network call is a `FetchOutcome` parameter: a reply, a reply
  whose status is not ok, or an exception. `BeginAnalysis` is the part of
  `analyzePosition` before the request and `CompleteAnalysis` the part after.
  Its invariant `Valid()` states two things:
  - every history entry holds a text the library exported from some board;
  - a position marked valid is the one on the board (the board was loaded
    from that text, or the text was exported from the board).
- `move_history.dfy` (module `MoveHistory`): the grouping of the flat history
  into numbered (white, black-or-nothing) pairs (the `reduce` as a loop, proved
  equal to a recursive reference), and the rendered rows and buttons.
- `analysis_panel.dfy` (module `AnalysisPanel`): which of the panel's four
  views is shown, and how the evaluation is written with its sign.

Three behaviours of the code worth stating:
- A failed drag leaves the selection as it was. Only a failed click move clears it.
- Auto-analysis does not fire for every position change. It fires whenever the
  shown position is valid and differs from the starting text.
- The error view needs a non-empty message. An empty message is falsy in
  `if (error)`, so a failure whose exception carries an empty message shows the
  placeholder.

## Model

| member | source | states |
|---|---|---|
| `Board.Game.constructor` | src/App.tsx:18 | the shared board starts as the board the library builds from the starting text; construction needs a text the library accepts |
| `Board.Game.Load` | src/App.tsx:33 | loading reports acceptance, replaces the board on success and leaves it untouched on rejection |
| `Board.Game.MakeMove` | src/App.tsx:149-153 | a legal move replaces the board by the library's result and returns its descriptor; an illegal one returns nothing and changes nothing |
| `App.Controller.constructor` | src/App.tsx:18-27 | initial state: starting position shown as valid, no analysis, not loading, no error, no selection, empty history |
| `App.Controller.ValidateFen` | src/App.tsx:29-40 | the result is whether the library accepted the text; on success the board holds the loaded position, otherwise it is unchanged |
| `App.Controller.HandleFenChange` | src/App.tsx:42-55 | the typed text always becomes the shown position, valid exactly when it loaded; invalid text sets "Invalid FEN position" and drops the analysis; valid text clears the error and keeps the analysis; selection, loading and history are untouched |
| `App.Controller.BeginAnalysis` | src/App.tsx:57-74 | no request and no change for an invalid position; otherwise loading is on, the error is cleared and the request is {shown text, depth 15} |
| `App.Controller.CompleteAnalysis` | src/App.tsx:78-91 | loading is off after every outcome; a reply replaces the analysis wholesale; not-ok stores "Analysis failed. Please try again.", an Error its message, anything else "An unexpected error occurred", each with no analysis; the panel then shows that message when it is non-empty, and a reply with no prior error shows the result |
| `App.Controller.AnalyzePosition` | src/App.tsx:57-92 | the whole request: a no-op on an invalid position; otherwise loading has ended, a reply is the analysis with no error, a failure leaves its message and no analysis |
| `App.Controller.AutoAnalyze` | src/App.tsx:95-99 | a request starts exactly when the shown position is valid and is not the starting text |
| `App.Controller.GetValidMoves` | src/App.tsx:102-115 | one destination per legal move from the square, in the library's order, and a square is listed exactly when some legal move goes there; a failing query gives none |
| `App.Controller.HandleMoveClick` | src/App.tsx:118-127 | a loadable text becomes the board and the shown valid position; a rejected one aborts with nothing changed; if the library re-accepts its own exported texts, every recorded position loads |
| `App.Controller.TryMove` | src/App.tsx:149-171 | a legal move replaces the board, shows its exported text as valid and appends exactly one entry {notation, mover, exported text}; an illegal one changes neither board, position nor history |
| `App.Controller.OnSquareClick` | src/App.tsx:130-180 | clicking the selected square deselects and changes nothing else; a piece of the side to move becomes the selection with no move tried; with nothing selected any other square changes nothing; with another square selected the move is tried with queen promotion and the selection is cleared; history only grows |
| `App.Controller.OnDrop` | src/App.tsx:183-219 | returns true exactly when the move was made; the move effect as for a click; the selection is cleared only on success; history only grows |
| `App.Controller.CustomSquareStyles` | src/App.tsx:222-262 | no selection and no check give no styles; a square is styled exactly when it is the selection, a legal destination of it, or the king of the side to move while in check; the king's check style overrides, then destination over selection |
| `App.KingsOf` | src/App.tsx:246-251 | the filter keeps exactly the cells holding a king of the given colour |
| `App.KingSquare` | src/App.tsx:245-252 | a king square exists exactly when the grid holds a king of the side to move, and it is the first such king in row order |
| `App.ClickTwice` | src/App.tsx:134-144 | with nothing selected, two clicks on one square leave nothing selected and change neither board, position nor history |
| `MoveHistory.PairMoves` | src/components/MoveHistory.tsx:16-24 | the reduce that pushes at even indices yields exactly the recursive pairing |
| `MoveHistory.PairedLength` | src/components/MoveHistory.tsx:16-24 | n moves give ceil(n/2) pairs |
| `MoveHistory.PairedAt` | src/components/MoveHistory.tsx:18-19 | pair k is (moves[2k], moves[2k+1]) when 2k+1 < n and (moves[2k], nothing) otherwise |
| `MoveHistory.PairedMissingReply` | src/components/MoveHistory.tsx:19 | a pair lacks its reply exactly when it is the last and n is odd |
| `MoveHistory.UnpairedPaired` | src/components/MoveHistory.tsx:16-24 | flattening the pairs and dropping the missing replies gives back the history in order |
| `MoveHistory.Render` | src/components/MoveHistory.tsx:30-32 | one row per pair, and row k is numbered k+1 |
| `MoveHistory.RenderedRow` | src/components/MoveHistory.tsx:30-52 | row k's first button is move 2k; its second button exists exactly when move 2k+1 does, and is that move's |
| `MoveHistory.RenderedButtons` | src/components/MoveHistory.tsx:30-54 | one button per history entry in order, showing its notation, highlighted exactly when its text equals the shown position, passing exactly that text to the click callback |
| `MoveHistory.SamePositionSameHighlight` | src/components/MoveHistory.tsx:37-47 | any two entries with the same position text get the same highlight, and both are highlighted when that text is shown: highlighting is by text, not place |
| `AnalysisPanel.Panel` | src/components/AnalysisPanel.tsx:15-81 | a non-empty error is shown whatever else holds; else loading whatever the analysis; else the placeholder exactly when there is no analysis; else the result with its depth, best move and the evaluation text of the value: "+" exactly when non-negative, then digits denoting its magnitude |
| `AnalysisPanel.ValueText` | src/components/AnalysisPanel.tsx:60-61 | the shown evaluation starts with "+" exactly when non-negative and with "-" exactly when negative, and the rest is decimal digits denoting the value's magnitude |
| `AnalysisPanel.Digits` | src/components/AnalysisPanel.tsx:61 | a number's text is a non-empty run of decimal digits with no leading zero that denotes the number |

## Left out

- Chess rules: legality, position text parsing and export, move notation, check detection and the board grid belong to the external chess library. They are uninterpreted functions here, so properties like "loading a text and exporting it gives it back" are not stated.
- The HTTP request itself: the endpoint, headers, JSON encoding and body parsing are replaced by the `FetchOutcome` parameter. The reply is trusted to have the `AnalysisResponse` shape, as the code assigns it unchecked.
- Overlapping requests: the model runs one request at a time. `BeginAnalysis` and `CompleteAnalysis` may have other handlers between them, but late replies overwriting newer ones (last reply wins) are not modelled.
- The manual Analyze button and its guard (disabled while the position is invalid or a request is loading) are not modelled: `BeginAnalysis` may be called while loading, which the page's button never does.
- React mechanics: the effect re-runs only when the position text or flag changes; the model states only its condition. Batching of state updates, closures and `console.log` are not modelled.
- Displayed evaluation: the value is modelled as an integer, and the text rule covers integers only. The colour class on the value, `evaluation.type` and the principal variation (commented out) are not modelled.
- `src/components/EvaluationBar.tsx` is not part of this model: it is a floating-point clamp whose use is commented out. `src/components/AnalysisChat.tsx` is static markup.
- Layout and styling, including highlight colours: only which square gets which kind of highlight is modelled.
