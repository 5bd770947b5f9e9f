/** The position controller of src/App.tsx: the state cells of the page
    component as fields of a class, and its event handlers as methods
    that update them and the shared board object in place. */
module App {
  import opened Types
  import opened Board
  import AnalysisPanel

  const INITIAL_FEN: string := "rnbqkbnr/pppppppp/8/8/8/8/PPPPPPPP/RNBQKBNR w KQkq - 0 1"
  const INVALID_FEN_MESSAGE: string := "Invalid FEN position"
  const ANALYSIS_FAILED_MESSAGE: string := "Analysis failed. Please try again."
  const UNEXPECTED_ERROR_MESSAGE: string := "An unexpected error occurred"
  /** The search depth every analysis request asks for. */
  const ANALYSIS_DEPTH: int := 15

  /** What a failed request throws: an Error object with its message, or
      some other value. */
  datatype Thrown = ErrorObject(message: string) | OtherValue

  /** How the request to the analysis service ends: a parsed reply, a
      reply whose status is not ok, or an exception (network failure,
      unparsable body). */
  datatype FetchOutcome = Responded(data: AnalysisResponse) | HttpNotOk | Threw(thrown: Thrown)

  /** The message the catch block stores for a failed request. */
  function FailureMessage(outcome: FetchOutcome): string
    requires !outcome.Responded?
  {
    match outcome
    case HttpNotOk => ANALYSIS_FAILED_MESSAGE
    case Threw(ErrorObject(message)) => message
    case Threw(OtherValue) => UNEXPECTED_ERROR_MESSAGE
  }

  /** The condition of the auto-analyse effect. */
  predicate ShouldAutoAnalyze(p: ChessPosition)
  {
    p.isValid && p.fen != INITIAL_FEN
  }

  /** The kind of highlight a square gets. */
  datatype Highlight = SelectedHighlight | TargetHighlight | CheckHighlight

  /** board().flat(): the cells row after row. */
  function Flatten<T>(rows: seq<seq<T>>): seq<T>
  {
    if rows == [] then [] else rows[0] + Flatten(rows[1..])
  }

  predicate IsKingOf(cell: Option<BoardCell>, c: Color)
  {
    cell.Some? && cell.value.kind == King && cell.value.color == c
  }

  /** The filter for the king of colour c, keeping the cells' order. */
  function KingsOf(cells: seq<Option<BoardCell>>, c: Color): (kings: seq<Option<BoardCell>>)
    ensures forall x :: x in kings <==> x in cells && IsKingOf(x, c)
  {
    if cells == [] then []
    else if IsKingOf(cells[0], c) then [cells[0]] + KingsOf(cells[1..], c)
    else KingsOf(cells[1..], c)
  }

  lemma {:induction false} FirstOfKingsOf(cells: seq<Option<BoardCell>>, c: Color)
    requires |KingsOf(cells, c)| > 0
    ensures exists i :: 0 <= i < |cells| && cells[i] == KingsOf(cells, c)[0] &&
                        (forall j :: 0 <= j < i ==> !IsKingOf(cells[j], c))
  {
    if IsKingOf(cells[0], c) {
      assert cells[0] == KingsOf(cells, c)[0];
    } else {
      var rest := cells[1..];
      FirstOfKingsOf(rest, c);
      var i :| 0 <= i < |rest| && rest[i] == KingsOf(rest, c)[0] &&
               (forall j :: 0 <= j < i ==> !IsKingOf(rest[j], c));
      assert cells[i + 1] == KingsOf(cells, c)[0];
      forall j | 0 <= j < i + 1
        ensures !IsKingOf(cells[j], c)
      {
        if j > 0 { assert cells[j] == rest[j - 1]; }
      }
    }
  }

  /** The square of the king of colour c: the first such king of the
      flattened grid, or None when the grid holds none. */
  function KingSquare(grid: seq<seq<Option<BoardCell>>>, c: Color): (sq: Option<Square>)
    ensures sq.Some? <==> exists x :: x in Flatten(grid) && IsKingOf(x, c)
    ensures sq.Some? ==>
      exists i :: 0 <= i < |Flatten(grid)| && Flatten(grid)[i] == Some(BoardCell(sq.value, King, c)) &&
                  (forall j :: 0 <= j < i ==> !IsKingOf(Flatten(grid)[j], c))
  {
    var cells := Flatten(grid);
    var kings := KingsOf(cells, c);
    if |kings| > 0 then
      assert kings[0] in kings;
      FirstOfKingsOf(cells, c);
      Some(kings[0].value.square)
    else
      assert forall x :: x in cells && IsKingOf(x, c) ==> x in kings;
      None
  }

  /** The page component's state. `historyBoards` is a ghost record of the
      boards whose position texts the history entries hold. */
  class Controller<!B(!new)> {
    const game: Game<B>
    var position: ChessPosition
    var analysis: Option<AnalysisResponse>
    var isLoading: bool
    var error: Option<string>
    var selectedSquare: Option<Square>
    var moveHistory: seq<MoveRecord>
    ghost var historyBoards: seq<B>

    /** Every history entry holds the text the library exported for some
        board, and a position marked valid is the one the board holds:
        either the board was loaded from that text or the text was
        exported from the board. */
    ghost predicate Valid()
      reads this, game
    {
      && |historyBoards| == |moveHistory|
      && (forall i :: 0 <= i < |moveHistory| ==> moveHistory[i].fen == game.rules.fen(historyBoards[i]))
      && (position.isValid ==> InSync())
    }

    ghost predicate InSync()
      reads this, game
    {
      position.fen == game.Fen() || game.rules.load(position.fen) == Some(game.state)
    }

    /** The initial state: the board built from the standard starting
        position, shown as valid, nothing else set. */
    constructor (rules: Rules<B>)
      requires rules.load(INITIAL_FEN).Some?
      ensures Valid() && fresh(game)
      ensures game.rules == rules && game.state == rules.load(INITIAL_FEN).value
      ensures position == ChessPosition(INITIAL_FEN, true)
      ensures analysis == None && !isLoading && error == None
      ensures selectedSquare == None && moveHistory == []
    {
      game := new Game(rules, INITIAL_FEN);
      position := ChessPosition(INITIAL_FEN, true);
      analysis := None;
      isLoading := false;
      error := None;
      selectedSquare := None;
      moveHistory := [];
      historyBoards := [];
    }

    /** Whether the square holds a piece of the side to move. */
    predicate IsOwnPiece(square: Square)
      reads game
    {
      var piece := game.Get(square);
      piece.Some? && piece.value.color == game.Turn()
    }

    /** validateFen: loads the text into the shared board and reports
        whether the library accepted it. */
    method ValidateFen(text: string) returns (ok: bool)
      modifies game
      ensures ok <==> game.rules.load(text).Some?
      ensures game.state == if ok then game.rules.load(text).value else old(game.state)
    {
      ok := game.Load(text);
    }

    /** handleFenChange: the typed text always becomes the shown position,
        valid exactly when the board accepted it. */
    method HandleFenChange(text: string)
      requires Valid()
      modifies this`position, this`error, this`analysis, game
      ensures Valid()
      ensures position == ChessPosition(text, game.rules.load(text).Some?)
      ensures game.state == if position.isValid then game.rules.load(text).value else old(game.state)
      ensures !position.isValid ==> error == Some(INVALID_FEN_MESSAGE) && analysis == None
      ensures position.isValid ==> error == None && analysis == old(analysis)
    {
      var isValid := ValidateFen(text);
      position := ChessPosition(text, isValid);
      if !isValid {
        error := Some(INVALID_FEN_MESSAGE);
        analysis := None;
      } else {
        error := None;
      }
    }

    /** analyzePosition up to the request: nothing happens for an invalid
        position; otherwise loading starts, the error is cleared, and the
        request for the shown position is issued. */
    method BeginAnalysis() returns (request: Option<AnalysisRequest>)
      requires Valid()
      modifies this`isLoading, this`error
      ensures Valid()
      ensures request.Some? <==> position.isValid
      ensures request.Some? ==> request.value == AnalysisRequest(position.fen, ANALYSIS_DEPTH)
      ensures request.Some? ==> isLoading && error == None
      ensures request.None? ==> isLoading == old(isLoading) && error == old(error)
    {
      if !position.isValid {
        request := None;
        return;
      }
      isLoading := true;
      error := None;
      request := Some(AnalysisRequest(position.fen, ANALYSIS_DEPTH));
    }

    /** analyzePosition from the reply on: a reply replaces the analysis
        wholesale; any failure stores its message and drops the analysis;
        loading ends in every case. */
    method CompleteAnalysis(outcome: FetchOutcome)
      requires Valid()
      modifies this`analysis, this`error, this`isLoading
      ensures Valid()
      ensures !isLoading
      ensures outcome.Responded? ==> analysis == Some(outcome.data) && error == old(error)
      ensures !outcome.Responded? ==> analysis == None && error == Some(FailureMessage(outcome))
      ensures !outcome.Responded? && FailureMessage(outcome) != "" ==>
        AnalysisPanel.Panel(analysis, isLoading, error) == AnalysisPanel.ErrorView(FailureMessage(outcome))
      ensures outcome.Responded? && !AnalysisPanel.HasError(old(error)) ==>
        AnalysisPanel.Panel(analysis, isLoading, error).ResultView?
    {
      if outcome.Responded? {
        analysis := Some(outcome.data);
      } else {
        error := Some(FailureMessage(outcome));
        analysis := None;
      }
      isLoading := false;
    }

    /** analyzePosition as a whole, for one request answered by `outcome`:
        a no-op on an invalid position; otherwise loading has ended, a
        reply is the new analysis with no error, and a failure leaves its
        message and no analysis. */
    method AnalyzePosition(outcome: FetchOutcome) returns (request: Option<AnalysisRequest>)
      requires Valid()
      modifies this`analysis, this`error, this`isLoading
      ensures Valid()
      ensures request.Some? <==> position.isValid
      ensures request.None? ==>
        isLoading == old(isLoading) && error == old(error) && analysis == old(analysis)
      ensures request.Some? ==> request.value == AnalysisRequest(position.fen, ANALYSIS_DEPTH) && !isLoading
      ensures request.Some? && outcome.Responded? ==> analysis == Some(outcome.data) && error == None
      ensures request.Some? && !outcome.Responded? ==>
        analysis == None && error == Some(FailureMessage(outcome))
    {
      request := BeginAnalysis();
      if request.Some? {
        CompleteAnalysis(outcome);
      }
    }

    /** The auto-analyse effect: starts an analysis exactly when the shown
        position is valid and is not the starting position. */
    method AutoAnalyze() returns (request: Option<AnalysisRequest>)
      requires Valid()
      modifies this`isLoading, this`error
      ensures Valid()
      ensures request.Some? <==> ShouldAutoAnalyze(position)
      ensures request.Some? ==> request.value == AnalysisRequest(position.fen, ANALYSIS_DEPTH)
      ensures request.Some? ==> isLoading && error == None
      ensures request.None? ==> isLoading == old(isLoading) && error == old(error)
    {
      if ShouldAutoAnalyze(position) {
        request := BeginAnalysis();
      } else {
        request := None;
      }
    }

    /** getValidMoves: the destinations of the legal moves from a square,
        one per move and in the library's order; none when the query
        fails. */
    function GetValidMoves(square: Square): (targets: seq<Square>)
      reads game
      ensures game.Moves(square).None? ==> targets == []
      ensures game.Moves(square).Some? ==>
        |targets| == |game.Moves(square).value| &&
        forall i :: 0 <= i < |targets| ==> targets[i] == game.Moves(square).value[i].to
      ensures forall t :: t in targets <==>
        game.Moves(square).Some? && exists m :: m in game.Moves(square).value && m.to == t
    {
      match game.Moves(square)
      case None => []
      case Some(moves) =>
        var targets := seq(|moves|, i requires 0 <= i < |moves| => moves[i].to);
        assert forall t :: t in targets ==> exists m :: m in moves && m.to == t by {
          forall t | t in targets ensures exists m :: m in moves && m.to == t {
            var i :| 0 <= i < |targets| && targets[i] == t;
            assert moves[i] in moves;
          }
        }
        assert forall m :: m in moves ==> m.to in targets by {
          forall m | m in moves ensures m.to in targets {
            var i :| 0 <= i < |moves| && moves[i] == m;
            assert targets[i] == m.to;
          }
        }
        targets
    }

    /** handleMoveClick: loads a recorded position into the board and shows
        it as valid. The load is outside any catch, so a text the library
        rejects aborts the handler before anything changes. */
    method HandleMoveClick(fen: string)
      requires Valid()
      modifies this`position, game
      ensures Valid()
      ensures game.rules.load(fen).Some? ==>
        game.state == game.rules.load(fen).value && position == ChessPosition(fen, true)
      ensures game.rules.load(fen).None? ==> game.state == old(game.state) && position == old(position)
      ensures ReloadsOwnFen(game.rules) && (exists i :: 0 <= i < |moveHistory| && moveHistory[i].fen == fen) ==>
        position == ChessPosition(fen, true)
    {
      if ReloadsOwnFen(game.rules) && (exists i :: 0 <= i < |moveHistory| && moveHistory[i].fen == fen) {
        var i :| 0 <= i < |moveHistory| && moveHistory[i].fen == fen;
        assert game.rules.load(game.rules.fen(historyBoards[i])).Some?;
      }
      var ok := game.Load(fen);
      if !ok {
        return;
      }
      position := ChessPosition(fen, true);
    }

    /** The effect of a move attempt from `from` to `to` with queen
        promotion: a legal move replaces the board, shows the new position
        as valid and appends its record; an illegal one changes none of
        these. */
    twostate predicate MoveAttempted(from: Square, to: Square)
      reads this, game
    {
      match game.rules.move(old(game.state), from, to, Queen)
      case Some((m, b)) =>
        && game.state == b
        && position == ChessPosition(game.rules.fen(b), true)
        && moveHistory == old(moveHistory) + [MoveRecord(m.san, m.color, game.rules.fen(b))]
      case None =>
        && game.state == old(game.state)
        && position == old(position)
        && moveHistory == old(moveHistory)
    }

    /** The move code shared by the click and drop handlers. */
    method TryMove(from: Square, to: Square) returns (applied: bool)
      requires Valid()
      modifies this`position, this`moveHistory, this`historyBoards, game
      ensures Valid()
      ensures applied <==> old(game.rules.move(game.state, from, to, Queen)).Some?
      ensures MoveAttempted(from, to)
    {
      var move := game.MakeMove(from, to, Queen);
      if move.None? {
        applied := false;
        return;
      }
      var fen := game.Fen();
      position := ChessPosition(fen, true);
      moveHistory := moveHistory + [MoveRecord(move.value.san, move.value.color, fen)];
      historyBoards := historyBoards + [game.state];
      applied := true;
    }

    /** onSquareClick: the selection machine. Clicking the selected square
        deselects it; clicking a piece of the side to move selects it;
        clicking anything else with a square selected attempts the move
        and deselects; with nothing selected it does nothing. */
    method OnSquareClick(square: Square)
      requires Valid()
      modifies this`position, this`moveHistory, this`historyBoards, this`selectedSquare, game
      ensures Valid()
      ensures old(moveHistory) <= moveHistory
      ensures old(selectedSquare) == Some(square) ==>
        selectedSquare == None &&
        game.state == old(game.state) && position == old(position) && moveHistory == old(moveHistory)
      ensures old(selectedSquare) != Some(square) && old(IsOwnPiece(square)) ==>
        selectedSquare == Some(square) &&
        game.state == old(game.state) && position == old(position) && moveHistory == old(moveHistory)
      ensures old(selectedSquare) == None && !old(IsOwnPiece(square)) ==>
        selectedSquare == None &&
        game.state == old(game.state) && position == old(position) && moveHistory == old(moveHistory)
      ensures old(selectedSquare).Some? && old(selectedSquare) != Some(square) && !old(IsOwnPiece(square)) ==>
        selectedSquare == None && MoveAttempted(old(selectedSquare).value, square)
    {
      if selectedSquare == Some(square) {
        selectedSquare := None;
        return;
      }
      if IsOwnPiece(square) {
        selectedSquare := Some(square);
        return;
      }
      if selectedSquare.Some? {
        var applied := TryMove(selectedSquare.value, square);
        selectedSquare := None;
      }
    }

    /** onDrop: attempts the move and reports whether it was made; the
        selection is cleared only when it was. */
    method OnDrop(from: Square, to: Square) returns (accepted: bool)
      requires Valid()
      modifies this`position, this`moveHistory, this`historyBoards, this`selectedSquare, game
      ensures Valid()
      ensures old(moveHistory) <= moveHistory
      ensures accepted <==> old(game.rules.move(game.state, from, to, Queen)).Some?
      ensures MoveAttempted(from, to)
      ensures selectedSquare == if accepted then None else old(selectedSquare)
    {
      accepted := TryMove(from, to);
      if accepted {
        selectedSquare := None;
      }
    }

    /** customSquareStyles: the selected square, then each destination of
        its legal moves, then the king of the side to move when it is in
        check, each later entry overriding an earlier one. */
    method CustomSquareStyles() returns (styles: map<Square, Highlight>)
      ensures selectedSquare.None? && !game.InCheck() ==> styles == map[]
      ensures forall sq :: sq in styles <==>
        || selectedSquare == Some(sq)
        || (selectedSquare.Some? && sq in GetValidMoves(selectedSquare.value))
        || (game.InCheck() && KingSquare(game.Grid(), game.Turn()) == Some(sq))
      ensures forall sq :: sq in styles ==>
        styles[sq] == (if game.InCheck() && KingSquare(game.Grid(), game.Turn()) == Some(sq) then CheckHighlight
                       else if selectedSquare.Some? && sq in GetValidMoves(selectedSquare.value) then TargetHighlight
                       else SelectedHighlight)
    {
      styles := map[];
      if selectedSquare.Some? {
        var selected := selectedSquare.value;
        var validMoves := GetValidMoves(selected);
        styles := styles[selected := SelectedHighlight];
        var i := 0;
        while i < |validMoves|
          invariant 0 <= i <= |validMoves|
          invariant forall sq :: sq in styles <==> sq == selected || sq in validMoves[..i]
          invariant forall sq :: sq in styles ==>
            styles[sq] == (if sq in validMoves[..i] then TargetHighlight else SelectedHighlight)
        {
          assert validMoves[..i + 1] == validMoves[..i] + [validMoves[i]];
          styles := styles[validMoves[i] := TargetHighlight];
          i := i + 1;
        }
        assert validMoves[..i] == validMoves;
      }
      if game.InCheck() {
        var kingSquare := KingSquare(game.Grid(), game.Turn());
        if kingSquare.Some? {
          styles := styles[kingSquare.value := CheckHighlight];
        }
      }
    }
  }

  /** Clicking the same square twice with nothing selected leaves nothing
      selected and changes neither the board, the position nor the
      history: on a piece of the side to move the clicks select and
      deselect, elsewhere both do nothing. */
  method ClickTwice<B(!new)>(c: Controller<B>, square: Square)
    requires c.Valid() && c.selectedSquare == None
    modifies c, c.game
    ensures c.Valid() && c.selectedSquare == None
    ensures c.game.state == old(c.game.state)
    ensures c.position == old(c.position) && c.moveHistory == old(c.moveHistory)
  {
    c.OnSquareClick(square);
    c.OnSquareClick(square);
  }
}
