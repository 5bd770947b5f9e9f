/** Records exchanged between the controller, the board library, the
    analysis service and the view components (src/types.ts), plus the
    board vocabulary (squares, colours, pieces) the controller uses. */
module Types {

  datatype Option<+T> = None | Some(value: T)

  /** A board coordinate, 0..7. */
  newtype Coord = x: int | 0 <= x < 8

  /** A square of the board, say "e4" == Square(4, 3). Every square a
      board handler receives is one of the 64, so it is never empty. */
  datatype Square = Square(file: Coord, rank: Coord)

  /** 'w' | 'b' */
  datatype Color = White | Black

  datatype PieceKind = Pawn | Knight | Bishop | Rook | Queen | King

  /** What the board library reports for an occupied square. */
  datatype Piece = Piece(kind: PieceKind, color: Color)

  /** A board cell as the full-board enumeration reports it: the piece
      together with the square it stands on. */
  datatype BoardCell = BoardCell(square: Square, kind: PieceKind, color: Color)

  /** A move descriptor as the board library returns it. */
  datatype Move = Move(color: Color, from: Square, to: Square, san: string)

  /** ChessPosition: the text shown in the position field and whether the
      board library accepted it. */
  datatype ChessPosition = ChessPosition(fen: string, isValid: bool)

  /** MoveHistory entry: the move's notation, who moved, and the position
      it produced. */
  datatype MoveRecord = MoveRecord(san: string, color: Color, fen: string)

  /** The body sent to the analysis service. */
  datatype AnalysisRequest = AnalysisRequest(fen: string, depth: int)

  /** The score part of a reply: its kind ("cp" or "mate") and value. */
  datatype Evaluation = Evaluation(kind: string, value: int)

  /** AnalysisResponse, the analysis service's reply. */
  datatype AnalysisResponse = AnalysisResponse(
    evaluation: Evaluation,
    bestMove: string,
    pv: seq<string>,
    depth: int)
}
