/** The board library the controller relies on, kept abstract. Only the
    queries and updates that src/App.tsx calls are exposed; the chess
    rules behind them (legality, position text parsing and export, move
    notation, check detection) are uninterpreted functions over an
    unspecified board type B. */
module Board {
  import opened Types

  /** The oracle. A failure of the library, whether it throws or returns
      null, is `None`. */
  datatype Rules<!B> = Rules(
    /** load(text): the board the text describes, or None when the library rejects it */
    load: string -> Option<B>,
    /** fen(): the position text of a board */
    fen: B -> string,
    /** get(square): the piece on a square */
    get: (B, Square) -> Option<Piece>,
    /** turn(): the side to move */
    turn: B -> Color,
    /** move({from, to, promotion}): the move made and the board after it */
    move: (B, Square, Square, PieceKind) -> Option<(Move, B)>,
    /** moves({square, verbose: true}): the legal moves from a square, or None when the query throws */
    moves: (B, Square) -> Option<seq<Move>>,
    /** inCheck(): whether the side to move is in check */
    inCheck: B -> bool,
    /** board(): the 8 x 8 grid of cells, row by row, empty cells as None */
    board: B -> seq<seq<Option<BoardCell>>>)

  /** The library re-accepts every position text it exports. chess.js
      behaves so, but nothing below assumes it except where it is named. */
  ghost predicate ReloadsOwnFen<B(!new)>(rules: Rules<B>)
  {
    forall b: B :: rules.load(rules.fen(b)).Some?
  }

  /** The single, long-lived board object shared by all handlers. */
  class Game<!B> {
    const rules: Rules<B>
    var state: B

    /** new Chess(text); the library refuses to construct from a rejected text. */
    constructor (rules: Rules<B>, text: string)
      requires rules.load(text).Some?
      ensures this.rules == rules && state == rules.load(text).value
    {
      this.rules := rules;
      state := rules.load(text).value;
    }

    /** game.load(text): replaces the board on success; a rejected text
        leaves the board as it was. */
    method Load(text: string) returns (ok: bool)
      modifies this
      ensures ok <==> rules.load(text).Some?
      ensures state == if ok then rules.load(text).value else old(state)
    {
      match rules.load(text)
      case Some(b) =>
        state := b;
        ok := true;
      case None =>
        ok := false;
    }

    /** game.move({from, to, promotion}): applies a legal move in place and
        returns its descriptor; an illegal one changes nothing. */
    method MakeMove(from: Square, to: Square, promotion: PieceKind) returns (m: Option<Move>)
      modifies this
      ensures m.Some? <==> rules.move(old(state), from, to, promotion).Some?
      ensures m.Some? ==> rules.move(old(state), from, to, promotion) == Some((m.value, state))
      ensures m.None? ==> state == old(state)
    {
      match rules.move(state, from, to, promotion)
      case Some((mv, b)) =>
        state := b;
        m := Some(mv);
      case None =>
        m := None;
    }

    function Fen(): string
      reads this
    {
      rules.fen(state)
    }

    function Get(square: Square): Option<Piece>
      reads this
    {
      rules.get(state, square)
    }

    function Turn(): Color
      reads this
    {
      rules.turn(state)
    }

    function Moves(square: Square): Option<seq<Move>>
      reads this
    {
      rules.moves(state, square)
    }

    function InCheck(): bool
      reads this
    {
      rules.inCheck(state)
    }

    function Grid(): seq<seq<Option<BoardCell>>>
      reads this
    {
      rules.board(state)
    }
  }
}
