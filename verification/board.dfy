/** The board queries of the tic-tac-toe engine: a board is the list of nine
    cells in row-major order, each holding X, O or Empty. */
module Board {
  import opened Wrappers

  datatype Mark = X | O | Empty

  /** The other side; `bot` is `Opponent(human)`. */
  function Opponent(m: Mark): (r: Mark)
    requires m != Empty
    ensures r != Empty && r != m
  {
    if m == X then O else X
  }

  /** A line of three cell indices. */
  type Line = (nat, nat, nat)

  /** The eight winning lines, in the order they are scanned:
      the three rows, the three columns, then the two diagonals. */
  const Wins: seq<Line> := [
    (0, 1, 2), (3, 4, 5), (6, 7, 8),
    (0, 3, 6), (1, 4, 7), (2, 5, 8),
    (0, 4, 8), (2, 4, 6)
  ]

  /** The nine cells of an empty board. */
  const EmptyBoard: seq<Mark> := [Empty, Empty, Empty, Empty, Empty, Empty, Empty, Empty, Empty]

  /** Number of cells of `s` holding `m` (Python's `list.count`). */
  function Count(s: seq<Mark>, m: Mark): nat
  {
    multiset(s)[m]
  }

  /** Marks were placed alternately, X first: X leads O by zero or one. */
  predicate Alternating(b: seq<Mark>)
  {
    Count(b, O) <= Count(b, X) <= Count(b, O) + 1
  }

  /** Whose turn it is, inferred from the mark counts: O when X has more
      marks, X otherwise. */
  function Player(b: seq<Mark>): (r: Mark)
    ensures r != Empty
    ensures r == O <==> Count(b, X) > Count(b, O)
  {
    if Count(b, X) > Count(b, O) then O else X
  }

  /** On an alternating board X moves when the counts are level and O when X
      is one ahead; on the empty board X moves first. */
  lemma PlayerAlternates(b: seq<Mark>)
    requires Alternating(b)
    ensures Player(b) == X <==> Count(b, X) == Count(b, O)
    ensures Player(b) == O <==> Count(b, X) == Count(b, O) + 1
  {
  }

  /** On the empty board X moves first. */
  lemma EmptyBoardStartsWithX()
    ensures Alternating(EmptyBoard) && Player(EmptyBoard) == X
  {
    assert Count(EmptyBoard, X) == 0 && Count(EmptyBoard, O) == 0;
  }

  /** Whether `a` is an index of an empty cell, i.e. a legal move. */
  predicate Legal(b: seq<Mark>, a: int)
  {
    0 <= a < |b| && b[a] == Empty
  }

  /** Each element is below the next one. */
  predicate Increasing(s: seq<nat>)
  {
    |s| <= 1 || (s[0] < s[1] && Increasing(s[1..]))
  }

  /** In an increasing sequence an earlier element is below every later one. */
  lemma {:induction false} IncreasingOrder(s: seq<nat>, p: nat, q: nat)
    requires Increasing(s) && p < q < |s|
    ensures s[p] < s[q]
    decreases |s|
  {
    if p > 0 {
      IncreasingOrder(s[1..], p - 1, q - 1);
    } else if q > 1 {
      IncreasingOrder(s[1..], 0, q - 1);
    }
  }

  /** The indices from `i` on whose cell is empty, in ascending order. */
  function ActionsFrom(b: seq<Mark>, i: nat): (r: seq<nat>)
    requires i <= |b|
    ensures forall a :: a in r ==> i <= a && Legal(b, a)
    ensures forall a :: i <= a && Legal(b, a) ==> a in r
    ensures Increasing(r)
    decreases |b| - i
  {
    if i == |b| then []
    else
      var rest := ActionsFrom(b, i + 1);
      if b[i] == Empty then
        assert rest != [] ==> rest[0] in rest;
        assert ([i] + rest)[1..] == rest;
        [i] + rest
      else rest
  }

  /** The legal moves: exactly the empty cells, strictly ascending. */
  function Actions(b: seq<Mark>): (r: seq<nat>)
    ensures forall a :: a in r <==> Legal(b, a)
    ensures Increasing(r)
  {
    ActionsFrom(b, 0)
  }

  /** The board after the player to move marks cell `action`, or the
      exception raised when that cell is not a legal move. The input board
      is a value and is never changed. */
  function Result(b: seq<Mark>, action: int): (r: Outcome<seq<Mark>>)
    ensures r.Fail? <==> !Legal(b, action)
    ensures r.Fail? ==> r.error == InvalidAction
    ensures r.Ok? ==> |r.value| == |b| && r.value[action] == Player(b)
    ensures r.Ok? ==> forall i {:trigger r.value[i]} :: 0 <= i < |b| && i != action ==> r.value[i] == b[i]
    ensures r.Ok? ==> Count(r.value, Empty) + 1 == Count(b, Empty)
    ensures r.Ok? ==> Count(r.value, Player(b)) == Count(b, Player(b)) + 1
  {
    if action !in Actions(b) then Fail(InvalidAction)
    else Ok(b[action := Player(b)])
  }

  /** `Result` as the source performs it: check the move, copy the list,
      write the mover's mark into the copy. The input array is not in the
      frame, so it is left unchanged, and the returned board is a new array. */
  method ResultCopy(board: array<Mark>, action: int) returns (r: Outcome<array<Mark>>)
    ensures r.Fail? <==> !Legal(board[..], action)
    ensures r.Fail? ==> r.error == InvalidAction
    ensures r.Ok? ==> fresh(r.value) && r.value[..] == Result(board[..], action).value
  {
    if action !in Actions(board[..]) {
      return Fail(InvalidAction);
    }
    var boardCopy := new Mark[board.Length];
    forall i | 0 <= i < board.Length {
      boardCopy[i] := board[i];
    }
    assert boardCopy[..] == board[..];
    var currentPlayer := Player(boardCopy[..]);
    boardCopy[action] := currentPlayer;
    assert boardCopy[..] == board[..][action := currentPlayer];
    return Ok(boardCopy);
  }

  /** Playing a legal move keeps the X-first alternation of the marks. */
  lemma {:induction false} ResultKeepsAlternation(b: seq<Mark>, action: int)
    requires Alternating(b) && Legal(b, action)
    ensures Result(b, action).Ok? && Alternating(Result(b, action).value)
  {
    var p := Player(b);
    var b' := Result(b, action).value;
    assert Count(b', Opponent(p)) == Count(b, Opponent(p));
    PlayerAlternates(b);
  }

  predicate OnBoard(b: seq<Mark>, l: Line)
  {
    l.0 < |b| && l.1 < |b| && l.2 < |b|
  }

  /** The three cells of `l` hold the same mark, and it is not Empty:
      all three are X or all three are O. */
  predicate Completes(b: seq<Mark>, l: Line): (r: bool)
    requires OnBoard(b, l)
    ensures r <==> (b[l.0] == X && b[l.1] == X && b[l.2] == X) || (b[l.0] == O && b[l.1] == O && b[l.2] == O)
  {
    b[l.0] != Empty && b[l.0] == b[l.1] && b[l.1] == b[l.2]
  }

  /** The mark on the first completed line of `lines`, or None. */
  function WinnerFrom(b: seq<Mark>, lines: seq<Line>): (r: Option<Mark>)
    requires forall k :: 0 <= k < |lines| ==> OnBoard(b, lines[k])
    ensures r.Some? ==> r.value != Empty
  {
    if lines == [] then None
    else if Completes(b, lines[0]) then Some(b[lines[0].0])
    else WinnerFrom(b, lines[1..])
  }

  /** `WinnerFrom` finds nothing exactly when no line is completed, and
      otherwise reports the mark of the first completed line. */
  lemma {:induction false} WinnerFromIsFirstCompleted(b: seq<Mark>, lines: seq<Line>)
    requires forall k :: 0 <= k < |lines| ==> OnBoard(b, lines[k])
    ensures WinnerFrom(b, lines).None? <==> forall k :: 0 <= k < |lines| ==> !Completes(b, lines[k])
    ensures WinnerFrom(b, lines).Some? ==>
              exists k :: 0 <= k < |lines| && Completes(b, lines[k]) && WinnerFrom(b, lines).value == b[lines[k].0]
                          && forall j :: 0 <= j < k ==> !Completes(b, lines[j])
  {
    if lines != [] && !Completes(b, lines[0]) {
      var rest := lines[1..];
      WinnerFromIsFirstCompleted(b, rest);
      forall k | 0 <= k < |rest| ensures rest[k] == lines[k + 1] { }
      if WinnerFrom(b, rest).Some? {
        var k :| 0 <= k < |rest| && Completes(b, rest[k]) && WinnerFrom(b, rest).value == b[rest[k].0]
                 && forall j :: 0 <= j < k ==> !Completes(b, rest[j]);
        assert forall j :: 0 <= j < k + 1 ==> !Completes(b, lines[j]) by {
          forall j | 0 <= j < k + 1 ensures !Completes(b, lines[j]) {
            if j > 0 { assert lines[j] == rest[j - 1]; }
          }
        }
      } else {
        forall k | 0 <= k < |lines| ensures !Completes(b, lines[k]) {
          if k > 0 { assert lines[k] == rest[k - 1]; }
        }
      }
    }
  }

  /** The winning mark of a nine-cell board, never Empty: the mark on the
      first completed line in the order of `Wins`. */
  function Winner(b: seq<Mark>): (r: Option<Mark>)
    requires |b| == 9
    ensures r.Some? ==> r.value != Empty
  {
    WinnerFrom(b, Wins)
  }

  /** There is a winner exactly when some line of `Wins` is completed, and it
      is the mark on the first completed one. */
  lemma WinnerIsFirstCompleted(b: seq<Mark>)
    requires |b| == 9
    ensures Winner(b).None? <==> forall k :: 0 <= k < |Wins| ==> !Completes(b, Wins[k])
    ensures Winner(b).Some? ==>
              exists k :: 0 <= k < |Wins| && Completes(b, Wins[k]) && Winner(b).value == b[Wins[k].0]
                          && forall j :: 0 <= j < k ==> !Completes(b, Wins[j])
  {
    WinnerFromIsFirstCompleted(b, Wins);
  }

  /** A board with no empty cell has no legal move, and conversely. */
  lemma NoActionsIffFull(b: seq<Mark>)
    ensures |Actions(b)| == 0 <==> forall i :: 0 <= i < |b| ==> b[i] != Empty
  {
    var r := Actions(b);
    if i :| 0 <= i < |b| && b[i] == Empty {
      assert Legal(b, i) && i in r;
    }
    if |r| > 0 {
      assert r[0] in r && Legal(b, r[0]);
    }
  }

  /** The game has ended: someone won, or no legal move is left. */
  function Terminal(b: seq<Mark>): (r: bool)
    requires |b| == 9
    ensures !r ==> exists a :: Legal(b, a)
  {
    var acts := Actions(b);
    assert acts != [] ==> acts[0] in acts;
    Winner(b).Some? || |acts| == 0
  }

  /** The game has ended exactly when some line is completed or no cell is
      empty. */
  lemma TerminalIffLineOrFull(b: seq<Mark>)
    requires |b| == 9
    ensures Terminal(b) <==> (exists k :: 0 <= k < |Wins| && Completes(b, Wins[k]))
                             || (forall i :: 0 <= i < |b| ==> b[i] != Empty)
  {
    WinnerIsFirstCompleted(b);
    NoActionsIffFull(b);
  }

  /** The score of an ended game for the human: 1 when the human won, -1
      when the bot (the opponent) won, 0 for a draw; raises on a running game. */
  function Utility(b: seq<Mark>, human: Mark): (r: Outcome<int>)
    requires |b| == 9 && human != Empty
    ensures r.Fail? <==> !Terminal(b)
    ensures r.Fail? ==> r.error == NotTerminal
    ensures r.Ok? ==> -1 <= r.value <= 1
    ensures r.Ok? ==> (r.value == 1 <==> Winner(b) == Some(human))
    ensures r.Ok? ==> (r.value == -1 <==> Winner(b) == Some(Opponent(human)))
    ensures r.Ok? ==> (r.value == 0 <==> Winner(b).None?)
  {
    if !Terminal(b) then Fail(NotTerminal)
    else if Winner(b) == Some(human) then Ok(1)
    else if Winner(b) == Some(Opponent(human)) then Ok(-1)
    else Ok(0)
  }

  /** The utility is zero-sum: the human's score is minus the bot's. */
  lemma UtilityZeroSum(b: seq<Mark>, human: Mark)
    requires |b| == 9 && human != Empty && Terminal(b)
    ensures Utility(b, human).value == -Utility(b, Opponent(human)).value
  {
  }

  /** A board one move from full, with no completed line. */
  const LastCellBoard: seq<Mark> := [X, O, X, O, X, O, O, X, Empty]

  /** Before the last move only cell 8 is legal. */
  lemma LastCellActions()
    ensures Actions(LastCellBoard) == [8]
  {
    var r := Actions(LastCellBoard);
    assert Legal(LastCellBoard, 8);
    assert 8 in r;
    assert forall a :: a in r ==> a == 8;
  }

  /** Before the last move no line is completed, so the game is running. */
  lemma LastCellRunning()
    ensures !Terminal(LastCellBoard)
  {
    var b := LastCellBoard;
    assert !Completes(b, Wins[0]) && !Completes(b, Wins[1]) && !Completes(b, Wins[2]) && !Completes(b, Wins[3]);
    assert !Completes(b, Wins[4]) && !Completes(b, Wins[5]) && !Completes(b, Wins[6]) && !Completes(b, Wins[7]);
    assert b[8] == Empty;
  }

  /** With four marks each, X is to move. */
  lemma LastCellPlayer()
    ensures Player(LastCellBoard) == X
  {
    var b := LastCellBoard;
  }

  /** A completed line of O ends the game even while cells are still empty. */
  lemma CompletedLineScenario()
    ensures var b := [O, O, O, X, X, Empty, X, Empty, Empty];
      Winner(b) == Some(O) && Terminal(b) && |Actions(b)| > 0
  {
    var b := [O, O, O, X, X, Empty, X, Empty, Empty];
    assert Completes(b, Wins[0]);
    assert 5 in Actions(b);
  }
}
