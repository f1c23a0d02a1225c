/** The rules of 3x3 tic-tac-toe: the board, whose turn it is, the legal
    moves, making a move, the winner, the end of the game and its score.
    A board is a value: making a move builds a new board and leaves the old
    one as it was. */
module Rules {

  /** A player's mark. X always moves first. */
  datatype Mark = X | O

  /** One square: EMPTY (None) or holding a mark. */
  datatype Cell = Empty | Filled(mark: Mark)

  datatype Option<T> = None | Some(value: T)

  /** The two ways that making a move can fail. */
  datatype Error =
    | InvalidMove   // the square is already taken ("Invalid move")
    | IndexError    // a coordinate that a list of three cannot be subscripted with

  datatype Outcome<T> = Ok(value: T) | Err(error: Error)

  /** A move (i, j): row i, column j. Any pair of integers can be passed in;
      the legal moves are the empty squares with 0 <= i, j < 3. */
  datatype Action = Action(row: int, col: int)

  predicate IsGrid(g: seq<seq<Cell>>) {
    |g| == 3 && forall i :: 0 <= i < 3 ==> |g[i]| == 3
  }

  /** Three rows of three squares. */
  type Board = g: seq<seq<Cell>> | IsGrid(g)
    witness [[Empty, Empty, Empty], [Empty, Empty, Empty], [Empty, Empty, Empty]]

  predicate InRange(a: Action) {
    0 <= a.row < 3 && 0 <= a.col < 3
  }

  // ---------------------------------------------------------------------
  // The initial board

  function InitialState(): (b: Board)
    ensures forall i, j :: 0 <= i < 3 && 0 <= j < 3 ==> b[i][j] == Empty
  {
    [[Empty, Empty, Empty], [Empty, Empty, Empty], [Empty, Empty, Empty]]
  }

  // ---------------------------------------------------------------------
  // Counting squares

  /** How many squares of s hold c. */
  function CountIn(s: seq<Cell>, c: Cell): nat {
    if s == [] then 0 else CountIn(s[..|s| - 1], c) + (if s[|s| - 1] == c then 1 else 0)
  }

  /** How many squares of the rows hold c. */
  function Tally(rows: seq<seq<Cell>>, c: Cell): nat {
    if rows == [] then 0 else Tally(rows[..|rows| - 1], c) + CountIn(rows[|rows| - 1], c)
  }

  function EmptyCount(b: Board): nat {
    Tally(b, Empty)
  }

  lemma {:induction false} CountInPartition(s: seq<Cell>)
    ensures CountIn(s, Empty) + CountIn(s, Filled(X)) + CountIn(s, Filled(O)) == |s|
  {
    if s != [] {
      CountInPartition(s[..|s| - 1]);
      var last := s[|s| - 1];
      if last.Filled? {
        assert last.mark == X || last.mark == O;
      }
    }
  }

  lemma {:induction false} TallyPartition(rows: seq<seq<Cell>>)
    requires forall k :: 0 <= k < |rows| ==> |rows[k]| == 3
    ensures Tally(rows, Empty) + Tally(rows, Filled(X)) + Tally(rows, Filled(O)) == 3 * |rows|
  {
    if rows != [] {
      TallyPartition(rows[..|rows| - 1]);
      CountInPartition(rows[|rows| - 1]);
    }
  }

  lemma {:induction false} CountInUpdate(s: seq<Cell>, j: nat, v: Cell, c: Cell)
    requires j < |s|
    ensures CountIn(s[j := v], c)
            == CountIn(s, c) - (if s[j] == c then 1 else 0) + (if v == c then 1 else 0)
  {
    var n := |s| - 1;
    if j < n {
      assert s[j := v][..n] == s[..n][j := v];
      CountInUpdate(s[..n], j, v, c);
    } else {
      assert s[j := v][..n] == s[..n];
    }
  }

  lemma {:induction false} TallyUpdate(rows: seq<seq<Cell>>, i: nat, r: seq<Cell>, c: Cell)
    requires i < |rows|
    ensures Tally(rows[i := r], c) == Tally(rows, c) - CountIn(rows[i], c) + CountIn(r, c)
  {
    var n := |rows| - 1;
    if i < n {
      assert rows[i := r][..n] == rows[..n][i := r];
      TallyUpdate(rows[..n], i, r, c);
    } else {
      assert rows[i := r][..n] == rows[..n];
    }
  }

  lemma {:induction false} CountInZero(s: seq<Cell>, c: Cell)
    ensures CountIn(s, c) == 0 <==> forall j :: 0 <= j < |s| ==> s[j] != c
  {
    if s != [] {
      CountInZero(s[..|s| - 1], c);
    }
  }

  lemma {:induction false} TallyZero(rows: seq<seq<Cell>>, c: Cell)
    ensures Tally(rows, c) == 0 <==> forall i, j :: 0 <= i < |rows| && 0 <= j < |rows[i]| ==> rows[i][j] != c
  {
    if rows != [] {
      var n := |rows| - 1;
      TallyZero(rows[..n], c);
      CountInZero(rows[n], c);
    }
  }

  // ---------------------------------------------------------------------
  // player

  /** Whose turn it is: X when the number of occupied squares is even. */
  function ToMove(b: Board): Mark {
    if (Tally(b, Filled(X)) + Tally(b, Filled(O))) % 2 == 0 then X else O
  }

  lemma ToMoveParity(b: Board)
    ensures ToMove(b) == X <==> (9 - EmptyCount(b)) % 2 == 0
  {
    TallyPartition(b);
  }

  /** At most nine squares are empty, so the number of empty squares is a
      measure for the search. */
  lemma EmptyCountBound(b: Board)
    ensures EmptyCount(b) <= 9
  {
    TallyPartition(b);
  }

  lemma InitialToMove()
    ensures ToMove(InitialState()) == X
    ensures EmptyCount(InitialState()) == 9
  {
    TallyPartition(InitialState());
    TallyZero(InitialState(), Filled(X));
    TallyZero(InitialState(), Filled(O));
  }

  /** player(board): counts the marks square by square. */
  method Player(board: Board) returns (p: Mark)
    ensures p == ToMove(board)
  {
    var xs, os := 0, 0;
    for i := 0 to 3
      invariant xs == Tally(board[..i], Filled(X))
      invariant os == Tally(board[..i], Filled(O))
    {
      for j := 0 to 3
        invariant xs == Tally(board[..i], Filled(X)) + CountIn(board[i][..j], Filled(X))
        invariant os == Tally(board[..i], Filled(O)) + CountIn(board[i][..j], Filled(O))
      {
        assert board[i][..j + 1][..j] == board[i][..j];
        if board[i][j] == Filled(O) {
          os := os + 1;
        } else if board[i][j] == Filled(X) {
          xs := xs + 1;
        }
      }
      assert board[..i + 1][..i] == board[..i];
      assert board[i][..3] == board[i];
    }
    assert board[..3] == board;
    var zeroOrOne := (xs + os) % 2;
    if zeroOrOne == 0 {
      p := X;
    } else {
      p := O;
    }
  }

  // ---------------------------------------------------------------------
  // actions

  /** a is a square of the board and it is empty. */
  predicate IsMove(b: Board, a: Action) {
    InRange(a) && b[a.row][a.col] == Empty
  }

  /** The empty squares of a row (row number i), left to right. */
  function RowMoves(row: seq<Cell>, i: int): seq<Action> {
    if row == [] then []
    else RowMoves(row[..|row| - 1], i) + (if row[|row| - 1] == Empty then [Action(i, |row| - 1)] else [])
  }

  /** The empty squares of the rows, row by row. */
  function MovesOf(rows: seq<seq<Cell>>): seq<Action> {
    if rows == [] then []
    else MovesOf(rows[..|rows| - 1]) + RowMoves(rows[|rows| - 1], |rows| - 1)
  }

  /** The legal moves in row-major order. */
  function Moves(b: Board): seq<Action> {
    MovesOf(b)
  }

  predicate Distinct(s: seq<Action>) {
    forall p, q :: 0 <= p < q < |s| ==> s[p] != s[q]
  }

  /** a comes before c in row-major order. */
  predicate Before(a: Action, c: Action) {
    a.row < c.row || (a.row == c.row && a.col < c.col)
  }

  predicate RowMajorOrder(s: seq<Action>) {
    forall p, q :: 0 <= p < q < |s| ==> Before(s[p], s[q])
  }

  lemma OrderedAppend(s: seq<Action>, t: seq<Action>)
    requires RowMajorOrder(s) && RowMajorOrder(t)
    requires forall p, q :: 0 <= p < |s| && 0 <= q < |t| ==> Before(s[p], t[q])
    ensures RowMajorOrder(s + t) && Distinct(s + t)
  {
  }

  lemma {:induction false} RowMovesSpec(row: seq<Cell>, i: int)
    ensures forall k :: 0 <= k < |RowMoves(row, i)| ==>
              RowMoves(row, i)[k].row == i && 0 <= RowMoves(row, i)[k].col < |row| && row[RowMoves(row, i)[k].col] == Empty
    ensures forall j :: 0 <= j < |row| && row[j] == Empty ==> Action(i, j) in RowMoves(row, i)
    ensures RowMajorOrder(RowMoves(row, i))
  {
    if row != [] {
      var n := |row| - 1;
      RowMovesSpec(row[..n], i);
      var init := RowMoves(row[..n], i);
      var last := if row[n] == Empty then [Action(i, n)] else [];
      forall p, q | 0 <= p < |init| && 0 <= q < |last|
        ensures Before(init[p], last[q])
      {
        assert init[p].col < n;
      }
      OrderedAppend(init, last);
      assert RowMoves(row, i) == init + last;
      forall j | 0 <= j < |row| && row[j] == Empty
        ensures Action(i, j) in RowMoves(row, i)
      {
        if j < n {
          assert row[..n][j] == row[j];
          assert Action(i, j) in init;
        } else {
          assert Action(i, j) in last;
        }
      }
    }
  }

  /** The cell of rows at a, if a names one. */
  function CellOf(rows: seq<seq<Cell>>, a: Action): Option<Cell> {
    if 0 <= a.row < |rows| && 0 <= a.col < |rows[a.row]| then Some(rows[a.row][a.col]) else None
  }

  lemma {:induction false} MovesOfSpec(rows: seq<seq<Cell>>)
    ensures forall k :: 0 <= k < |MovesOf(rows)| ==> CellOf(rows, MovesOf(rows)[k]) == Some(Empty)
    ensures forall i, j :: 0 <= i < |rows| && 0 <= j < |rows[i]| && rows[i][j] == Empty ==> Action(i, j) in MovesOf(rows)
    ensures RowMajorOrder(MovesOf(rows))
  {
    if rows != [] {
      var n := |rows| - 1;
      MovesOfSpec(rows[..n]);
      RowMovesSpec(rows[n], n);
      var init := MovesOf(rows[..n]);
      var last := RowMoves(rows[n], n);
      forall p, q | 0 <= p < |init| && 0 <= q < |last|
        ensures Before(init[p], last[q])
      {
        assert init[p].row < n;
      }
      OrderedAppend(init, last);
      assert MovesOf(rows) == init + last;
      forall i, j | 0 <= i < |rows| && 0 <= j < |rows[i]| && rows[i][j] == Empty
        ensures Action(i, j) in MovesOf(rows)
      {
        if i < n {
          assert rows[..n][i] == rows[i];
          assert Action(i, j) in init;
        } else {
          assert Action(i, j) in last;
        }
      }
    }
  }

  /** Moves(b) lists only empty squares, each once, in row-major order. */
  lemma MovesSpec(b: Board)
    ensures forall k :: 0 <= k < |Moves(b)| ==> IsMove(b, Moves(b)[k])
    ensures Distinct(Moves(b)) && RowMajorOrder(Moves(b))
  {
    MovesOfSpec(b);
  }

  lemma MovesMember(b: Board, a: Action)
    ensures a in Moves(b) <==> IsMove(b, a)
  {
    MovesOfSpec(b);
  }

  lemma MovesNone(b: Board)
    ensures Moves(b) == [] <==> EmptyCount(b) == 0
  {
    TallyZero(b, Empty);
    if EmptyCount(b) != 0 {
      var i, j :| 0 <= i < 3 && 0 <= j < 3 && b[i][j] == Empty;
      MovesMember(b, Action(i, j));
    }
    if Moves(b) != [] {
      MovesSpec(b);
      var a := Moves(b)[0];
      assert b[a.row][a.col] == Empty;
    }
  }

  /** What actions(board) returns: the empty squares, or None when there is
      none. The set is kept as a sequence without repeats. Python does not fix
      the order in which a set is iterated; this model fixes the order in which
      the members are added (row-major). */
  function LegalActions(b: Board): Option<seq<Action>> {
    if Moves(b) == [] then None else Some(Moves(b))
  }

  lemma LegalActionsMeaning(b: Board, a: Action)
    ensures LegalActions(b).None? <==> EmptyCount(b) == 0
    ensures LegalActions(b).Some? ==> (a in LegalActions(b).value <==> IsMove(b, a))
    ensures LegalActions(b).Some? ==> Distinct(LegalActions(b).value) && LegalActions(b).value != []
  {
    MovesNone(b);
    MovesMember(b, a);
    MovesSpec(b);
  }

  /** actions(board): collects the empty squares one square at a time. */
  method Actions(board: Board) returns (r: Option<seq<Action>>)
    ensures r == LegalActions(board)
  {
    var moves: seq<Action> := [];
    for i := 0 to 3
      invariant moves == MovesOf(board[..i])
    {
      for j := 0 to 3
        invariant moves == MovesOf(board[..i]) + RowMoves(board[i][..j], i)
      {
        assert board[i][..j + 1][..j] == board[i][..j];
        if board[i][j] == Empty {
          moves := moves + [Action(i, j)];
        }
      }
      assert board[..i + 1][..i] == board[..i];
      assert board[i][..3] == board[i];
    }
    assert board[..3] == board;
    if |moves| == 0 {
      r := None;
    } else {
      r := Some(moves);
    }
  }

  // ---------------------------------------------------------------------
  // result

  /** The square that Python's board[k] refers to in a list of three:
      negative subscripts count from the end; others are an IndexError. */
  function PyIndex(k: int): (r: Option<nat>)
    ensures r.Some? <==> -3 <= k < 3
    ensures r.Some? ==> r.value < 3 && r.value % 3 == k % 3
  {
    if 0 <= k < 3 then Some(k) else if -3 <= k < 0 then Some(k + 3) else None
  }

  /** The board after the player to move takes the empty square a. */
  function Play(b: Board, a: Action): (r: Board)
    requires IsMove(b, a)
    ensures r[a.row][a.col] == Filled(ToMove(b))
    ensures forall i, j :: 0 <= i < 3 && 0 <= j < 3 && (i != a.row || j != a.col) ==> r[i][j] == b[i][j]
    ensures EmptyCount(r) == EmptyCount(b) - 1
  {
    var row := b[a.row][a.col := Filled(ToMove(b))];
    CountInUpdate(b[a.row], a.col, Filled(ToMove(b)), Empty);
    TallyUpdate(b, a.row, row, Empty);
    b[a.row := row]
  }

  /** What result(board, action) returns: the IndexError of a bad subscript,
      InvalidMove on a taken square, else the new board. */
  function Apply(b: Board, a: Action): (r: Outcome<Board>)
    ensures r == Err(IndexError) <==> !(-3 <= a.row < 3 && -3 <= a.col < 3)
    ensures -3 <= a.row < 3 && -3 <= a.col < 3 ==>
              (r == Err(InvalidMove) <==> b[PyIndex(a.row).value][PyIndex(a.col).value] != Empty)
    ensures IsMove(b, a) ==> r == Ok(Play(b, a))
  {
    match (PyIndex(a.row), PyIndex(a.col))
    case (Some(i), Some(j)) =>
      if b[i][j] != Empty then Err(InvalidMove)
      else
        Ok(Play(b, Action(i, j)))
    case _ => Err(IndexError)
  }

  /** Every successful move fills exactly one empty square with the mark of
      the player to move, leaves the rest alone, and passes the turn. */
  lemma ApplyOk(b: Board, a: Action)
    requires Apply(b, a).Ok?
    ensures var i, j := PyIndex(a.row).value, PyIndex(a.col).value;
            var r := Apply(b, a).value;
            b[i][j] == Empty && r[i][j] == Filled(ToMove(b)) &&
            (forall i', j' :: 0 <= i' < 3 && 0 <= j' < 3 && (i' != i || j' != j) ==> r[i'][j'] == b[i'][j']) &&
            EmptyCount(r) == EmptyCount(b) - 1 &&
            ToMove(r) != ToMove(b)
  {
    var i, j := PyIndex(a.row).value, PyIndex(a.col).value;
    var r := Play(b, Action(i, j));
    ToMoveParity(b);
    ToMoveParity(r);
  }

  /** result(board, action): the move is made on a copy; board itself is a
      value and cannot change. */
  method Result(board: Board, action: Action) returns (r: Outcome<Board>)
    ensures r == Apply(board, action)
  {
    var boardCopy := board;
    var i := PyIndex(action.row);
    var j := PyIndex(action.col);
    if i.None? || j.None? {
      return Err(IndexError);
    }
    if board[i.value][j.value] != Empty {
      return Err(InvalidMove);
    }
    var p := Player(board);
    boardCopy := boardCopy[i.value := boardCopy[i.value][j.value := Filled(p)]];
    r := Ok(boardCopy);
  }

  // ---------------------------------------------------------------------
  // winner

  function Three(m: Mark): seq<Cell> {
    [Filled(m), Filled(m), Filled(m)]
  }

  predicate IsThree(line: seq<Cell>) {
    line == Three(X) || line == Three(O)
  }

  function Column(b: Board, k: nat): seq<Cell>
    requires k < 3
  {
    [b[0][k], b[1][k], b[2][k]]
  }

  function MainDiagonal(b: Board): seq<Cell> {
    [b[0][0], b[1][1], b[2][2]]
  }

  function AntiDiagonal(b: Board): seq<Cell> {
    [b[0][2], b[1][1], b[2][0]]
  }

  /** The eight lines, in the order they are checked: the rows, the
      columns, the main diagonal, the anti-diagonal. */
  function Lines(b: Board): (ls: seq<seq<Cell>>)
    ensures |ls| == 8
  {
    [b[0], b[1], b[2], Column(b, 0), Column(b, 1), Column(b, 2), MainDiagonal(b), AntiDiagonal(b)]
  }

  /** The mark of the first complete line from position k on. */
  function FirstWinner(ls: seq<seq<Cell>>, k: nat): Option<Mark>
    decreases |ls| - k
  {
    if k >= |ls| then None
    else if ls[k] == Three(X) then Some(X)
    else if ls[k] == Three(O) then Some(O)
    else FirstWinner(ls, k + 1)
  }

  function WinnerOf(b: Board): Option<Mark> {
    FirstWinner(Lines(b), 0)
  }

  /** m holds a whole row, column or diagonal. */
  predicate HasLine(b: Board, m: Mark) {
    Three(m) in Lines(b)
  }

  lemma {:induction false} FirstWinnerMeaning(ls: seq<seq<Cell>>, k: nat, m: Mark)
    ensures FirstWinner(ls, k) == Some(m) <==>
              exists n :: k <= n < |ls| && ls[n] == Three(m) &&
                          forall n' :: k <= n' < n ==> !IsThree(ls[n'])
    ensures FirstWinner(ls, k) == None <==> forall n :: k <= n < |ls| ==> !IsThree(ls[n])
    decreases |ls| - k
  {
    if k < |ls| {
      FirstWinnerMeaning(ls, k + 1, m);
      if FirstWinner(ls, k) == Some(m) && !IsThree(ls[k]) {
        var n :| k + 1 <= n < |ls| && ls[n] == Three(m) &&
                 forall n' :: k + 1 <= n' < n ==> !IsThree(ls[n']);
        assert forall n' :: k <= n' < n ==> !IsThree(ls[n']);
      }
      if exists n :: k <= n < |ls| && ls[n] == Three(m) && forall n' :: k <= n' < n ==> !IsThree(ls[n']) {
        var n :| k <= n < |ls| && ls[n] == Three(m) && forall n' :: k <= n' < n ==> !IsThree(ls[n']);
        if n > k {
          assert !IsThree(ls[k]);
          assert forall n' :: k + 1 <= n' < n ==> !IsThree(ls[n']);
        }
      }
    }
  }

  /** The winner holds a whole line, the first complete line in checking
      order is the winner's, and there is no winner exactly when no line is
      complete. */
  lemma WinnerMeaning(b: Board, m: Mark)
    ensures WinnerOf(b) == Some(m) <==>
              exists n :: 0 <= n < 8 && Lines(b)[n] == Three(m) &&
                          forall n' :: 0 <= n' < n ==> !IsThree(Lines(b)[n'])
    ensures WinnerOf(b) == Some(m) ==> HasLine(b, m)
    ensures WinnerOf(b) == None <==> !HasLine(b, X) && !HasLine(b, O)
  {
    var ls := Lines(b);
    FirstWinnerMeaning(ls, 0, m);
    FirstWinnerMeaning(ls, 0, X);
    FirstWinnerMeaning(ls, 0, O);
    if HasLine(b, X) {
      var n :| 0 <= n < 8 && ls[n] == Three(X);
      assert IsThree(ls[n]);
    }
    if HasLine(b, O) {
      var n :| 0 <= n < 8 && ls[n] == Three(O);
      assert IsThree(ls[n]);
    }
  }

  /** Scanning past a line that is not complete. */
  lemma PassLine(ls: seq<seq<Cell>>, k: nat)
    requires k < |ls| && !IsThree(ls[k])
    ensures FirstWinner(ls, k) == FirstWinner(ls, k + 1)
  {
  }

  /** Scanning reaches a complete line of m. */
  lemma HitLine(ls: seq<seq<Cell>>, k: nat, m: Mark)
    requires k < |ls| && ls[k] == Three(m)
    ensures FirstWinner(ls, k) == Some(m)
  {
  }

  /** winner(board): builds each line square by square and compares it with
      three X's and three O's. */
  method Winner(board: Board) returns (w: Option<Mark>)
    ensures w == WinnerOf(board)
  {
    ghost var ls := Lines(board);

    // Rows
    for i := 0 to 3
      invariant WinnerOf(board) == FirstWinner(ls, i)
    {
      var horizontal: seq<Cell> := [];
      for j := 0 to 3
        invariant horizontal == board[i][..j]
        invariant !IsThree(horizontal)
      {
        horizontal := horizontal + [board[i][j]];
        assert horizontal == board[i][..j + 1];
        if horizontal == Three(X) {
          assert ls[i] == board[i];
          HitLine(ls, i, X);
          return Some(X);
        }
        if horizontal == Three(O) {
          assert ls[i] == board[i];
          HitLine(ls, i, O);
          return Some(O);
        }
      }
      assert board[i][..3] == board[i] == ls[i];
      PassLine(ls, i);
    }

    // Columns: n walks down column k and wraps to the top of the next one
    var n, k := 0, 0;
    for i := 0 to 3
      invariant n == 0 && k == i
      invariant WinnerOf(board) == FirstWinner(ls, 3 + i)
    {
      ghost var column := Column(board, i);
      assert ls[3 + i] == column;
      var vertical: seq<Cell> := [];
      for j := 0 to 3
        invariant j < 3 ==> n == j && k == i
        invariant j == 3 ==> n == 0 && k == i + 1
        invariant vertical == column[..j]
        invariant !IsThree(vertical)
      {
        vertical := vertical + [board[n][k]];
        n := n + 1;
        assert vertical == column[..j + 1];
        if vertical == Three(X) {
          HitLine(ls, 3 + i, X);
          return Some(X);
        }
        if vertical == Three(O) {
          HitLine(ls, 3 + i, O);
          return Some(O);
        }
        if n % 3 == 0 {
          n := 0;
          k := k + 1;
        }
      }
      assert column[..3] == column;
      PassLine(ls, 3 + i);
    }

    // Main diagonal: the squares with i == j
    var diagonalRight: seq<Cell> := [];
    ghost var main := MainDiagonal(board);
    assert ls[6] == main;
    for i := 0 to 3
      invariant diagonalRight == main[..i]
      invariant !IsThree(diagonalRight)
    {
      for j := 0 to 3
        invariant diagonalRight == main[..if j > i then i + 1 else i]
        invariant !IsThree(diagonalRight)
      {
        if i == j {
          diagonalRight := diagonalRight + [board[i][j]];
          assert diagonalRight == main[..i + 1];
        }
        if diagonalRight == Three(X) {
          assert main[..3] == main;
          HitLine(ls, 6, X);
          return Some(X);
        }
        if diagonalRight == Three(O) {
          assert main[..3] == main;
          HitLine(ls, 6, O);
          return Some(O);
        }
      }
    }
    assert main[..3] == main;
    PassLine(ls, 6);

    // Anti-diagonal: the squares with i + j == 2
    var diagonalLeft: seq<Cell> := [];
    ghost var anti := AntiDiagonal(board);
    assert ls[7] == anti;
    for i := 0 to 3
      invariant diagonalLeft == anti[..i]
      invariant !IsThree(diagonalLeft)
    {
      for j := 0 to 3
        invariant diagonalLeft == anti[..if j > 2 - i then i + 1 else i]
        invariant !IsThree(diagonalLeft)
      {
        if i + j == 2 {
          diagonalLeft := diagonalLeft + [board[i][j]];
          assert diagonalLeft == anti[..i + 1];
          if diagonalLeft == Three(X) {
            assert anti[..3] == anti;
            HitLine(ls, 7, X);
            return Some(X);
          }
          if diagonalLeft == Three(O) {
            assert anti[..3] == anti;
            HitLine(ls, 7, O);
            return Some(O);
          }
        }
      }
    }
    assert anti[..3] == anti;
    PassLine(ls, 7);
    w := None;
  }

  // ---------------------------------------------------------------------
  // terminal and utility

  /** terminal(board): someone has won or no square is left. */
  function Terminal(b: Board): (t: bool)
    ensures t <==> HasLine(b, X) || HasLine(b, O) || EmptyCount(b) == 0
  {
    WinnerMeaning(b, X);
    MovesNone(b);
    WinnerOf(b).Some? || LegalActions(b).None?
  }

  /** utility(board): 1 if X has won, -1 if O has won, 0 otherwise. */
  function Utility(b: Board): (u: int)
    ensures -1 <= u <= 1
    ensures u == 1 ==> HasLine(b, X)
    ensures u == -1 ==> HasLine(b, O)
    ensures u == 0 <==> !HasLine(b, X) && !HasLine(b, O)
    ensures u == 1 <==> WinnerOf(b) == Some(X)
    ensures u == -1 <==> WinnerOf(b) == Some(O)
  {
    WinnerMeaning(b, X);
    WinnerMeaning(b, O);
    match WinnerOf(b)
    case Some(X) => 1
    case Some(O) => -1
    case None => 0
  }
}
