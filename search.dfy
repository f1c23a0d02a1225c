/** Exhaustive minimax search: X maximises the utility, O minimises it, and
    the search runs every line of play to its end. */
module Search {
  import opened Rules

  /** The running best starts below (maximiser) or above (minimiser) every
      outcome value; these stand for -inf and +inf. */
  const NEG_INF := -2
  const POS_INF := 2

  /** What maxvalue and minvalue return: the value reached and the move that
      reaches it, with no move on a finished game. */
  datatype Choice = Choice(value: int, action: Option<Action>)

  /** An unfinished game has a legal move, and actions returns all of them. */
  lemma UnfinishedMoves(b: Board)
    requires !Terminal(b)
    ensures Moves(b) != [] && LegalActions(b) == Some(Moves(b))
  {
    MovesNone(b);
  }

  function Max(a: int, b: int): int {
    if a >= b then a else b
  }

  function Min(a: int, b: int): int {
    if a <= b then a else b
  }

  /** The running best after scanning vs from the left, starting from the
      sentinel. */
  function Backup(vs: seq<int>, maximizing: bool): int {
    if vs == [] then (if maximizing then NEG_INF else POS_INF)
    else
      var best := Backup(vs[..|vs| - 1], maximizing);
      if maximizing then Max(best, vs[|vs| - 1]) else Min(best, vs[|vs| - 1])
  }

  /** One more step of the running best. */
  lemma BackupStep(vs: seq<int>, k: nat, maximizing: bool)
    requires k < |vs|
    ensures Backup(vs[..k + 1], maximizing) ==
            if maximizing then Max(Backup(vs[..k], true), vs[k]) else Min(Backup(vs[..k], false), vs[k])
  {
    assert vs[..k + 1][..k] == vs[..k];
  }

  /** Every value scanned so far is bounded by the running best. */
  predicate Bounded(vs: seq<int>, k: nat, t: int, maximizing: bool)
    requires k <= |vs|
  {
    forall j :: 0 <= j < k ==> if maximizing then vs[j] <= t else vs[j] >= t
  }

  lemma BoundedStep(vs: seq<int>, k: nat, t: int, maximizing: bool)
    requires k < |vs| && Bounded(vs, k, t, maximizing)
    ensures Bounded(vs, k + 1, if maximizing then Max(t, vs[k]) else Min(t, vs[k]), maximizing)
  {
  }

  predicate Outcomes(vs: seq<int>) {
    forall i :: 0 <= i < |vs| ==> -1 <= vs[i] <= 1
  }

  /** Over a non-empty sequence of outcomes the running best ends at one of
      them, and at the largest (maximiser) or smallest (minimiser). */
  lemma {:induction false} BackupExtremum(vs: seq<int>, maximizing: bool)
    requires vs != [] && Outcomes(vs)
    ensures -1 <= Backup(vs, maximizing) <= 1
    ensures Backup(vs, maximizing) in vs
    ensures forall i :: 0 <= i < |vs| ==>
              if maximizing then vs[i] <= Backup(vs, maximizing) else vs[i] >= Backup(vs, maximizing)
  {
    var n := |vs| - 1;
    if n > 0 {
      BackupExtremum(vs[..n], maximizing);
      assert vs == vs[..n] + [vs[n]];
    }
  }

  /** Once the running best has reached the best possible outcome, the rest
      of the scan cannot change it: the early return loses nothing. */
  lemma BackupStops(vs: seq<int>, k: nat, maximizing: bool)
    requires k < |vs| && Outcomes(vs)
    requires Backup(vs[..k + 1], maximizing) == (if maximizing then 1 else -1)
    ensures Backup(vs, maximizing) == (if maximizing then 1 else -1)
  {
    BackupExtremum(vs[..k + 1], maximizing);
    BackupExtremum(vs, maximizing);
  }

  /** The value of b when both sides play perfectly; maximizing says whether
      the side to move maximises (maxvalue) or minimises (minvalue). */
  function Value(b: Board, maximizing: bool): (v: int)
    decreases EmptyCount(b), 1
    ensures -1 <= v <= 1
  {
    if Terminal(b) then Utility(b)
    else
      MovesSpec(b);
      UnfinishedMoves(b);
      var vs := ChildValues(b, Moves(b), maximizing);
      BackupExtremum(vs, maximizing);
      Backup(vs, maximizing)
  }

  /** The value of the board after each move of ms, for the other side. */
  function ChildValues(b: Board, ms: seq<Action>, maximizing: bool): (vs: seq<int>)
    requires forall k :: 0 <= k < |ms| ==> IsMove(b, ms[k])
    decreases EmptyCount(b), 0, |ms|
    ensures |vs| == |ms| && Outcomes(vs)
  {
    if ms == [] then []
    else [Value(Play(b, ms[0]), !maximizing)] + ChildValues(b, ms[1..], maximizing)
  }

  /** Position k of ChildValues is the value after the k-th move. */
  lemma {:induction false} ChildValueAt(b: Board, ms: seq<Action>, maximizing: bool, k: nat)
    requires forall j :: 0 <= j < |ms| ==> IsMove(b, ms[j])
    requires k < |ms|
    ensures ChildValues(b, ms, maximizing)[k] == Value(Play(b, ms[k]), !maximizing)
  {
    if k > 0 {
      ChildValueAt(b, ms[1..], maximizing, k - 1);
    }
  }

  /** a is the first legal move of b, in row-major order, that reaches the
      value of b. */
  ghost predicate FirstBest(b: Board, a: Action, maximizing: bool) {
    MovesSpec(b);
    exists i :: 0 <= i < |Moves(b)| && Moves(b)[i] == a && FirstBestAt(b, i, maximizing)
  }

  /** The move at position i of Moves(b) reaches the value of b, and no
      earlier one does. */
  ghost predicate FirstBestAt(b: Board, i: int, maximizing: bool)
    requires 0 <= i < |Moves(b)|
  {
    MovesSpec(b);
    Value(Play(b, Moves(b)[i]), !maximizing) == Value(b, maximizing) &&
    forall j :: 0 <= j < i ==> Value(Play(b, Moves(b)[j]), !maximizing) != Value(b, maximizing)
  }

  /** The value of an unfinished board is the best of its children's values:
      no move does better, and some move reaches it. */
  lemma ValueOptimal(b: Board, a: Action, maximizing: bool)
    requires !Terminal(b) && IsMove(b, a)
    ensures if maximizing then Value(Play(b, a), false) <= Value(b, true)
            else Value(Play(b, a), true) >= Value(b, false)
    ensures exists k :: 0 <= k < |Moves(b)| && FirstBestAt(b, k, maximizing)
  {
    MovesSpec(b);
    UnfinishedMoves(b);
    var ms := Moves(b);
    var vs := ChildValues(b, ms, maximizing);
    BackupExtremum(vs, maximizing);
    MovesMember(b, a);
    var i :| 0 <= i < |ms| && ms[i] == a;
    ChildValueAt(b, ms, maximizing, i);
    var k := FirstIndexOf(vs, Value(b, maximizing));
    ChildValueAt(b, ms, maximizing, k);
    forall j | 0 <= j < k
      ensures Value(Play(b, ms[j]), !maximizing) != Value(b, maximizing)
    {
      ChildValueAt(b, ms, maximizing, j);
    }
    assert FirstBestAt(b, k, maximizing);
  }

  /** The first position of v in vs. */
  function FirstIndexOf(vs: seq<int>, v: int): (k: nat)
    requires v in vs
    ensures k < |vs| && vs[k] == v && forall j :: 0 <= j < k ==> vs[j] != v
  {
    if vs[0] == v then 0 else 1 + FirstIndexOf(vs[1..], v)
  }

  /** When the side to move can finish a winning line at once, the value is
      that side's win. */
  lemma ImmediateWin(b: Board, a: Action, maximizing: bool)
    requires !Terminal(b) && IsMove(b, a)
    requires Utility(Play(b, a)) == (if maximizing then 1 else -1)
    ensures Value(b, maximizing) == (if maximizing then 1 else -1)
  {
    assert Terminal(Play(b, a));
    ValueOptimal(b, a, maximizing);
  }

  /** The first best move is a legal move and reaches the value. */
  lemma FirstBestMeaning(b: Board, a: Action, maximizing: bool)
    requires FirstBest(b, a, maximizing)
    ensures IsMove(b, a)
    ensures Value(Play(b, a), !maximizing) == Value(b, maximizing)
  {
    MovesSpec(b);
    var i :| 0 <= i < |Moves(b)| && Moves(b)[i] == a && FirstBestAt(b, i, maximizing);
  }

  /** Only one move can be the first best one, so the search is
      deterministic. */
  lemma FirstBestUnique(b: Board, a: Action, a': Action, maximizing: bool)
    requires FirstBest(b, a, maximizing) && FirstBest(b, a', maximizing)
    ensures a == a'
  {
    MovesSpec(b);
    var i :| 0 <= i < |Moves(b)| && Moves(b)[i] == a && FirstBestAt(b, i, maximizing);
    var i' :| 0 <= i' < |Moves(b)| && Moves(b)[i'] == a' && FirstBestAt(b, i', maximizing);
    assert i == i';
  }

  /** The search loop's record of the first position that reaches the
      value, turned into FirstBest. */
  lemma FoundFirstBest(b: Board, vs: seq<int>, best: nat, maximizing: bool)
    requires forall k :: 0 <= k < |Moves(b)| ==> IsMove(b, Moves(b)[k])
    requires vs == ChildValues(b, Moves(b), maximizing) && best < |vs|
    requires vs[best] == Value(b, maximizing)
    requires forall j :: 0 <= j < best ==> vs[j] != Value(b, maximizing)
    ensures FirstBest(b, Moves(b)[best], maximizing)
  {
    ChildValueAt(b, Moves(b), maximizing, best);
    forall j | 0 <= j < best
      ensures Value(Play(b, Moves(b)[j]), !maximizing) != Value(b, maximizing)
    {
      ChildValueAt(b, Moves(b), maximizing, j);
    }
    assert FirstBestAt(b, best, maximizing);
  }

  /** maxvalue(board): tries every move, keeping the first move that
      strictly improves the running maximum, and stops early at a win. */
  method MaxValue(board: Board) returns (c: Choice)
    decreases EmptyCount(board)
    ensures c.value == Value(board, true)
    ensures c.action.None? <==> Terminal(board)
    ensures c.action.Some? ==> FirstBest(board, c.action.value, true)
  {
    if Terminal(board) {
      return Choice(Utility(board), None);
    }
    var moves := Actions(board);
    UnfinishedMoves(board);
    MovesSpec(board);
    var order := moves.value;
    ghost var vs := ChildValues(board, order, true);
    var temp := NEG_INF;
    c := Choice(temp, None);
    ghost var best := 0;
    for k := 0 to |order|
      invariant temp == Backup(vs[..k], true)
      invariant Bounded(vs, k, temp, true)
      invariant k > 0 ==> best < k && c == Choice(temp, Some(order[best])) && vs[best] == temp
      invariant k > 0 ==> forall j :: 0 <= j < best ==> vs[j] < temp
    {
      var action := order[k];
      var bestValue := temp;
      var next := Result(board, action);
      assert next == Ok(Play(board, action));
      var reply := MinValue(next.value);
      ChildValueAt(board, order, true, k);
      assert reply.value == vs[k];
      BackupStep(vs, k, true);
      BoundedStep(vs, k, temp, true);
      temp := Max(temp, reply.value);
      if temp > bestValue {
        c := Choice(temp, Some(action));
        best := k;
      }
      if temp == 1 {
        BackupStops(vs, k, true);
        FoundFirstBest(board, vs, best, true);
        return;
      }
    }
    assert vs[..|order|] == vs;
    FoundFirstBest(board, vs, best, true);
  }

  /** minvalue(board): tries every move, keeping the first move that
      strictly lowers the running minimum, and stops early at a loss for X. */
  method MinValue(board: Board) returns (c: Choice)
    decreases EmptyCount(board)
    ensures c.value == Value(board, false)
    ensures c.action.None? <==> Terminal(board)
    ensures c.action.Some? ==> FirstBest(board, c.action.value, false)
  {
    if Terminal(board) {
      return Choice(Utility(board), None);
    }
    var moves := Actions(board);
    UnfinishedMoves(board);
    MovesSpec(board);
    var order := moves.value;
    ghost var vs := ChildValues(board, order, false);
    var temp := POS_INF;
    c := Choice(temp, None);
    ghost var best := 0;
    for k := 0 to |order|
      invariant temp == Backup(vs[..k], false)
      invariant Bounded(vs, k, temp, false)
      invariant k > 0 ==> best < k && c == Choice(temp, Some(order[best])) && vs[best] == temp
      invariant k > 0 ==> forall j :: 0 <= j < best ==> vs[j] > temp
    {
      var action := order[k];
      var bestValue := temp;
      var next := Result(board, action);
      assert next == Ok(Play(board, action));
      var reply := MaxValue(next.value);
      ChildValueAt(board, order, false, k);
      assert reply.value == vs[k];
      BackupStep(vs, k, false);
      BoundedStep(vs, k, temp, false);
      temp := Min(temp, reply.value);
      if temp < bestValue {
        c := Choice(temp, Some(action));
        best := k;
      }
      if temp == -1 {
        BackupStops(vs, k, false);
        FoundFirstBest(board, vs, best, false);
        return;
      }
    }
    assert vs[..|order|] == vs;
    FoundFirstBest(board, vs, best, false);
  }

  /** minimax(board): no move on a finished game; otherwise the move that
      maxvalue (X to move) or minvalue (O to move) keeps. */
  method Minimax(board: Board) returns (r: Option<Action>)
    ensures r.None? <==> Terminal(board)
    ensures r.Some? ==> FirstBest(board, r.value, ToMove(board) == X)
    ensures r.Some? ==> IsMove(board, r.value)
    ensures r.Some? ==> Value(Play(board, r.value), ToMove(board) != X) == Value(board, ToMove(board) == X)
  {
    if Terminal(board) {
      return None;
    }
    var currentPlayer := Player(board);
    var bestMove: Choice;
    if currentPlayer == X {
      bestMove := MaxValue(board);
    } else {
      bestMove := MinValue(board);
    }
    r := bestMove.action;
    FirstBestMeaning(board, r.value, currentPlayer == X);
  }
}
