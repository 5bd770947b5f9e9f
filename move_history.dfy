/** The move list of src/components/MoveHistory.tsx: the flat history is
    grouped into numbered (white, black-or-nothing) pairs, and every pair
    is rendered as a label and one or two buttons. */
module MoveHistory {
  import opened Types

  /** A numbered row of the list: a move and the reply to it, if any. */
  datatype MovePair = MovePair(white: MoveRecord, black: Option<MoveRecord>)

  /** The pairing by structural recursion, two moves at a time: the
      reference the reduce below is proved against. */
  function Paired(moves: seq<MoveRecord>): seq<MovePair>
  {
    if |moves| == 0 then []
    else if |moves| == 1 then [MovePair(moves[0], None)]
    else [MovePair(moves[0], Some(moves[1]))] + Paired(moves[2..])
  }

  /** Pair k in terms of the flat list: moves 2k and 2k+1, or move 2k
      alone when it is the last. */
  function PairAt(moves: seq<MoveRecord>, k: nat): MovePair
    requires 2 * k < |moves|
  {
    MovePair(moves[2 * k], if 2 * k + 1 < |moves| then Some(moves[2 * k + 1]) else None)
  }

  /** Flattening the pairs and dropping the missing replies. */
  function Unpaired(pairs: seq<MovePair>): seq<MoveRecord>
  {
    if pairs == [] then []
    else
      [pairs[0].white] + (if pairs[0].black.Some? then [pairs[0].black.value] else [])
      + Unpaired(pairs[1..])
  }

  /** For n moves there are ceil(n/2) pairs. */
  lemma {:induction false} PairedLength(moves: seq<MoveRecord>)
    ensures |Paired(moves)| == (|moves| + 1) / 2
  {
    if |moves| >= 2 {
      PairedLength(moves[2..]);
    }
  }

  /** Pair k is (moves[2k], moves[2k+1]) when the reply exists, and
      (moves[2k], nothing) otherwise. */
  lemma {:induction false} PairedAt(moves: seq<MoveRecord>, k: nat)
    requires 2 * k < |moves|
    ensures |Paired(moves)| == (|moves| + 1) / 2
    ensures Paired(moves)[k] == PairAt(moves, k)
  {
    PairedLength(moves);
    if k > 0 {
      PairedAt(moves[2..], k - 1);
    }
  }

  /** Only the last pair can lack its reply, and it does exactly when the
      number of moves is odd. */
  lemma PairedMissingReply(moves: seq<MoveRecord>, k: nat)
    requires k < |Paired(moves)|
    ensures Paired(moves)[k].black.None? <==> k == |Paired(moves)| - 1 && |moves| % 2 == 1
  {
    PairedLength(moves);
    PairedAt(moves, k);
  }

  /** Flattening the pairs gives back the history, in order. */
  lemma {:induction false} UnpairedPaired(moves: seq<MoveRecord>)
    ensures Unpaired(Paired(moves)) == moves
  {
    if |moves| == 0 {
    } else if |moves| == 1 {
      assert Unpaired(Paired(moves)) == [moves[0]] + Unpaired([]);
    } else {
      var rest := moves[2..];
      UnpairedPaired(rest);
      var pairs := Paired(moves);
      assert pairs[1..] == Paired(rest);
      assert Unpaired(pairs) == [moves[0]] + [moves[1]] + Unpaired(Paired(rest));
      assert moves == [moves[0]] + [moves[1]] + rest;
    }
  }

  /** The reduce: every index is visited, and at each even one the move
      and the next move (or nothing past the end) are pushed. */
  method PairMoves(moves: seq<MoveRecord>) returns (pairs: seq<MovePair>)
    ensures pairs == Paired(moves)
  {
    pairs := [];
    var i := 0;
    while i < |moves|
      invariant 0 <= i <= |moves|
      invariant |pairs| == (i + 1) / 2
      invariant forall k: nat :: k < |pairs| ==> 2 * k < |moves| && pairs[k] == PairAt(moves, k)
    {
      if i % 2 == 0 {
        pairs := pairs + [MovePair(moves[i], if i + 1 < |moves| then Some(moves[i + 1]) else None)];
        assert pairs[i / 2] == PairAt(moves, i / 2);
      }
      i := i + 1;
    }
    PairedLength(moves);
    forall k: nat | k < |pairs|
      ensures pairs[k] == Paired(moves)[k]
    {
      PairedAt(moves, k);
    }
  }

  /** A move button: its text, whether it is highlighted, and the position
      text passed to the click callback. */
  datatype MoveButton = MoveButton(text: string, highlighted: bool, onClick: string)

  /** A rendered row: its number, the white button, and the black button
      when there is a reply. */
  datatype PairRow = PairRow(number: nat, white: MoveButton, black: Option<MoveButton>)

  /** A move's button: highlighted when its position is the one shown. */
  function Button(m: MoveRecord, currentFen: string): MoveButton
  {
    MoveButton(m.san, currentFen == m.fen, m.fen)
  }

  function RenderPair(p: MovePair, index: nat, currentFen: string): PairRow
  {
    PairRow(index + 1, Button(p.white, currentFen),
            if p.black.Some? then Some(Button(p.black.value, currentFen)) else None)
  }

  /** The rendered list for the pairs of the history. */
  function Render(moves: seq<MoveRecord>, currentFen: string): (rows: seq<PairRow>)
    ensures |rows| == (|moves| + 1) / 2
    ensures forall k :: 0 <= k < |rows| ==> rows[k].number == k + 1
  {
    PairedLength(moves);
    var pairs := Paired(moves);
    seq(|pairs|, k requires 0 <= k < |pairs| => RenderPair(pairs[k], k, currentFen))
  }

  /** The buttons of the rendered rows, in order. */
  function Buttons(rows: seq<PairRow>): seq<MoveButton>
  {
    if rows == [] then []
    else
      [rows[0].white] + (if rows[0].black.Some? then [rows[0].black.value] else [])
      + Buttons(rows[1..])
  }

  lemma {:induction false} ButtonsOfRendered(pairs: seq<MovePair>, from: nat, currentFen: string)
    ensures Buttons(seq(|pairs|, k requires 0 <= k < |pairs| => RenderPair(pairs[k], from + k, currentFen)))
         == seq(|Unpaired(pairs)|, i requires 0 <= i < |Unpaired(pairs)| => Button(Unpaired(pairs)[i], currentFen))
  {
    var rows := seq(|pairs|, k requires 0 <= k < |pairs| => RenderPair(pairs[k], from + k, currentFen));
    if pairs != [] {
      var rest := pairs[1..];
      var restRows := seq(|rest|, k requires 0 <= k < |rest| => RenderPair(rest[k], from + 1 + k, currentFen));
      ButtonsOfRendered(rest, from + 1, currentFen);
      assert rows[1..] == restRows;
      var head := [pairs[0].white] + (if pairs[0].black.Some? then [pairs[0].black.value] else []);
      assert Unpaired(pairs) == head + Unpaired(rest);
    }
  }

  /** There is exactly one button per history entry, in history order:
      entry i's button shows its notation, is highlighted exactly when its
      position text equals the shown one, and passes that text to the
      callback. */
  lemma RenderedButtons(moves: seq<MoveRecord>, currentFen: string)
    ensures |Buttons(Render(moves, currentFen))| == |moves|
    ensures forall i :: 0 <= i < |moves| ==>
      && Buttons(Render(moves, currentFen))[i].text == moves[i].san
      && (Buttons(Render(moves, currentFen))[i].highlighted <==> moves[i].fen == currentFen)
      && Buttons(Render(moves, currentFen))[i].onClick == moves[i].fen
  {
    var pairs := Paired(moves);
    ButtonsOfRendered(pairs, 0, currentFen);
    UnpairedPaired(moves);
    assert Render(moves, currentFen) ==
      seq(|pairs|, k requires 0 <= k < |pairs| => RenderPair(pairs[k], 0 + k, currentFen));
  }

  /** Row k shows move 2k on its first button and move 2k+1, when there is
      one, on its second. */
  lemma RenderedRow(moves: seq<MoveRecord>, currentFen: string, k: nat)
    requires 2 * k < |moves|
    ensures |Render(moves, currentFen)| == (|moves| + 1) / 2
    ensures Render(moves, currentFen)[k].white == Button(moves[2 * k], currentFen)
    ensures Render(moves, currentFen)[k].black.Some? <==> 2 * k + 1 < |moves|
    ensures 2 * k + 1 < |moves| ==> Render(moves, currentFen)[k].black == Some(Button(moves[2 * k + 1], currentFen))
  {
    PairedAt(moves, k);
  }

  /** Highlighting is by position text, not by place in the list: any two
      entries reaching the same position get the same highlight, and both
      are highlighted when that position is the one shown. */
  lemma SamePositionSameHighlight(moves: seq<MoveRecord>, currentFen: string, i: nat, j: nat)
    requires i < |moves| && j < |moves| && moves[i].fen == moves[j].fen
    ensures |Buttons(Render(moves, currentFen))| == |moves|
    ensures Buttons(Render(moves, currentFen))[i].highlighted == Buttons(Render(moves, currentFen))[j].highlighted
    ensures moves[i].fen == currentFen ==>
      Buttons(Render(moves, currentFen))[i].highlighted && Buttons(Render(moves, currentFen))[j].highlighted
  {
    RenderedButtons(moves, currentFen);
  }
}
