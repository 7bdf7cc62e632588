/** The bot's exhaustive minimax search. Utilities are scored from the human's
    side, so the human is the maximiser and the bot the minimiser. */
module Search {
  import opened Wrappers
  import opened Board

  /** Stand-ins for `math.inf` and `-math.inf`: outside every utility. */
  const PosInf: int := 2
  const NegInf: int := -2

  function Max(x: int, y: int): int { if x < y then y else x }
  function Min(x: int, y: int): int { if x < y then x else y }

  /** The board after the legal move `a`. */
  function Next(b: seq<Mark>, a: int): seq<Mark>
    requires Legal(b, a)
  {
    Result(b, a).value
  }

  /** The largest of `vals`, folded left from minus infinity the way the
      source's loop folds `max` over the moves. */
  function MaxOf(vals: seq<int>): (r: int)
    requires forall k :: 0 <= k < |vals| ==> NegInf < vals[k] < PosInf
    ensures vals == [] ==> r == NegInf
    ensures forall k :: 0 <= k < |vals| ==> vals[k] <= r
    ensures vals != [] ==> exists k :: 0 <= k < |vals| && r == vals[k]
  {
    if vals == [] then NegInf
    else
      var pre, v := vals[..|vals| - 1], vals[|vals| - 1];
      assert forall k :: 0 <= k < |pre| ==> pre[k] == vals[k];
      var m := MaxOf(pre);
      assert exists k :: 0 <= k < |vals| && Max(m, v) == vals[k] by {
        if Max(m, v) == v {
          assert vals[|vals| - 1] == v;
        } else {
          var k :| 0 <= k < |pre| && m == pre[k];
          assert vals[k] == pre[k];
        }
      }
      Max(m, v)
  }

  /** The smallest of `vals`, folded left from plus infinity the way the
      source's loops fold `min` over the moves. */
  function MinOf(vals: seq<int>): (r: int)
    requires forall k :: 0 <= k < |vals| ==> NegInf < vals[k] < PosInf
    ensures vals == [] ==> r == PosInf
    ensures forall k :: 0 <= k < |vals| ==> r <= vals[k]
    ensures vals != [] ==> exists k :: 0 <= k < |vals| && r == vals[k]
  {
    if vals == [] then PosInf
    else
      var pre, v := vals[..|vals| - 1], vals[|vals| - 1];
      assert forall k :: 0 <= k < |pre| ==> pre[k] == vals[k];
      var m := MinOf(pre);
      assert exists k :: 0 <= k < |vals| && Min(m, v) == vals[k] by {
        if Min(m, v) == v {
          assert vals[|vals| - 1] == v;
        } else {
          var k :| 0 <= k < |pre| && m == pre[k];
          assert vals[k] == pre[k];
        }
      }
      Min(m, v)
  }

  /** The value of a board for the human when the human is to choose:
      the utility of an ended game, otherwise the largest `MinValue` over the
      successors. */
  function MaxValue(b: seq<Mark>, human: Mark): (r: int)
    requires |b| == 9 && human != Empty
    ensures -1 <= r <= 1
    decreases Count(b, Empty), 1, 0
  {
    if Terminal(b) then Utility(b, human).value
    else MaxOf(MinValues(b, human, Actions(b)))
  }

  /** The value of a board for the human when the bot is to choose: the
      utility of an ended game, otherwise the smallest `MaxValue` over the
      successors. */
  function MinValue(b: seq<Mark>, human: Mark): (r: int)
    requires |b| == 9 && human != Empty
    ensures -1 <= r <= 1
    decreases Count(b, Empty), 1, 0
  {
    if Terminal(b) then Utility(b, human).value
    else MinOf(MaxValues(b, human, Actions(b)))
  }

  /** On an ended game both values are the utility for the human. */
  lemma ValueOfEndedGame(b: seq<Mark>, human: Mark)
    requires |b| == 9 && human != Empty && Terminal(b)
    ensures MaxValue(b, human) == Utility(b, human).value
    ensures MinValue(b, human) == Utility(b, human).value
  {
  }

  /** `MinValue` of the successor by each of the moves `acts`, in order. */
  function MinValues(b: seq<Mark>, human: Mark, acts: seq<nat>): (vals: seq<int>)
    requires |b| == 9 && human != Empty && forall a :: a in acts ==> Legal(b, a)
    ensures |vals| == |acts|
    ensures forall k :: 0 <= k < |vals| ==> -1 <= vals[k] <= 1
    decreases Count(b, Empty), 0, |acts|
  {
    if acts == [] then []
    else [MinValue(Next(b, acts[0]), human)] + MinValues(b, human, acts[1..])
  }

  /** `MaxValue` of the successor by each of the moves `acts`, in order. */
  function MaxValues(b: seq<Mark>, human: Mark, acts: seq<nat>): (vals: seq<int>)
    requires |b| == 9 && human != Empty && forall a :: a in acts ==> Legal(b, a)
    ensures |vals| == |acts|
    ensures forall k :: 0 <= k < |vals| ==> -1 <= vals[k] <= 1
    decreases Count(b, Empty), 0, |acts|
  {
    if acts == [] then []
    else [MaxValue(Next(b, acts[0]), human)] + MaxValues(b, human, acts[1..])
  }

  /** Entry `k` of `MinValues` is the `MinValue` after the `k`-th move. */
  lemma {:induction false} MinValuesAt(b: seq<Mark>, human: Mark, acts: seq<nat>, k: nat)
    requires |b| == 9 && human != Empty && forall a :: a in acts ==> Legal(b, a)
    requires k < |acts|
    ensures Legal(b, acts[k])
    ensures MinValues(b, human, acts)[k] == MinValue(Next(b, acts[k]), human)
  {
    assert acts[k] in acts;
    if k > 0 {
      MinValuesAt(b, human, acts[1..], k - 1);
    }
  }

  /** Entry `k` of `MaxValues` is the `MaxValue` after the `k`-th move. */
  lemma {:induction false} MaxValuesAt(b: seq<Mark>, human: Mark, acts: seq<nat>, k: nat)
    requires |b| == 9 && human != Empty && forall a :: a in acts ==> Legal(b, a)
    requires k < |acts|
    ensures Legal(b, acts[k])
    ensures MaxValues(b, human, acts)[k] == MaxValue(Next(b, acts[k]), human)
  {
    assert acts[k] in acts;
    if k > 0 {
      MaxValuesAt(b, human, acts[1..], k - 1);
    }
  }

  /** On a running game `MaxValue` is the best `MinValue` the human can reach
      in one move: no legal move gives more, and some legal move gives it. */
  lemma MaxValueIsBestMove(b: seq<Mark>, human: Mark)
    requires |b| == 9 && human != Empty && !Terminal(b)
    ensures forall a :: a in Actions(b) ==> MinValue(Next(b, a), human) <= MaxValue(b, human)
    ensures exists a :: a in Actions(b) && MaxValue(b, human) == MinValue(Next(b, a), human)
  {
    var acts := Actions(b);
    var vals := MinValues(b, human, acts);
    forall a | a in acts ensures MinValue(Next(b, a), human) <= MaxValue(b, human) {
      var k :| 0 <= k < |acts| && acts[k] == a;
      MinValuesAt(b, human, acts, k);
    }
    var k :| 0 <= k < |vals| && MaxValue(b, human) == vals[k];
    MinValuesAt(b, human, acts, k);
  }

  /** On a running game `MinValue` is the worst `MaxValue` the bot can force
      in one move: no legal move gives less, and some legal move gives it. */
  lemma MinValueIsBestReply(b: seq<Mark>, human: Mark)
    requires |b| == 9 && human != Empty && !Terminal(b)
    ensures forall a :: a in Actions(b) ==> MinValue(b, human) <= MaxValue(Next(b, a), human)
    ensures exists a :: a in Actions(b) && MinValue(b, human) == MaxValue(Next(b, a), human)
  {
    var acts := Actions(b);
    var vals := MaxValues(b, human, acts);
    forall a | a in acts ensures MinValue(b, human) <= MaxValue(Next(b, a), human) {
      var k :| 0 <= k < |acts| && acts[k] == a;
      MaxValuesAt(b, human, acts, k);
    }
    var k :| 0 <= k < |vals| && MinValue(b, human) == vals[k];
    MaxValuesAt(b, human, acts, k);
  }

  /** Folding `max` over values is minus folding `min` over their negations. */
  lemma {:induction false} MaxOfNegated(vals: seq<int>, negs: seq<int>)
    requires |vals| == |negs|
    requires forall k :: 0 <= k < |vals| ==> NegInf < vals[k] < PosInf && negs[k] == -vals[k]
    ensures MaxOf(vals) == -MinOf(negs)
  {
    if vals != [] {
      var n := |vals| - 1;
      assert forall k :: 0 <= k < n ==> vals[..n][k] == vals[k] && negs[..n][k] == negs[k];
      MaxOfNegated(vals[..n], negs[..n]);
    }
  }

  /** The game is zero-sum: the human's value of a board is minus the bot's,
      with the roles of maximiser and minimiser exchanged. */
  lemma {:induction false} ZeroSum(b: seq<Mark>, human: Mark)
    requires |b| == 9 && human != Empty
    ensures MaxValue(b, human) == -MinValue(b, Opponent(human))
    ensures MinValue(b, human) == -MaxValue(b, Opponent(human))
    decreases Count(b, Empty)
  {
    var bot := Opponent(human);
    assert Opponent(bot) == human;
    if Terminal(b) {
      UtilityZeroSum(b, human);
    } else {
      var acts := Actions(b);
      forall k | 0 <= k < |acts|
        ensures MinValues(b, human, acts)[k] == -MaxValues(b, bot, acts)[k]
        ensures MaxValues(b, human, acts)[k] == -MinValues(b, bot, acts)[k]
      {
        MinValuesAt(b, human, acts, k);
        MaxValuesAt(b, bot, acts, k);
        MaxValuesAt(b, human, acts, k);
        MinValuesAt(b, bot, acts, k);
        ZeroSum(Next(b, acts[k]), human);
      }
      MaxOfNegated(MinValues(b, human, acts), MaxValues(b, bot, acts));
      MaxOfNegated(MinValues(b, bot, acts), MaxValues(b, human, acts));
    }
  }

  /** Extending the scanned prefix by one value folds that value in. */
  lemma MaxOfStep(vals: seq<int>, i: nat)
    requires i < |vals| && forall k :: 0 <= k < |vals| ==> NegInf < vals[k] < PosInf
    ensures MaxOf(vals[..i + 1]) == Max(MaxOf(vals[..i]), vals[i])
  {
    assert vals[..i + 1][..i] == vals[..i];
  }

  /** Extending the scanned prefix by one value folds that value in. */
  lemma MinOfStep(vals: seq<int>, i: nat)
    requires i < |vals| && forall k :: 0 <= k < |vals| ==> NegInf < vals[k] < PosInf
    ensures MinOf(vals[..i + 1]) == Min(MinOf(vals[..i]), vals[i])
  {
    assert vals[..i + 1][..i] == vals[..i];
  }

  /** `MaxValue`, computed the way the source computes it: the utility of an
      ended game, otherwise the loop of `MaxOverMoves`. */
  method MaxValueSearch(b: seq<Mark>, human: Mark) returns (value: int)
    requires |b| == 9 && human != Empty
    ensures value == MaxValue(b, human)
    decreases Count(b, Empty), 1
  {
    if Terminal(b) {
      value := Utility(b, human).value;
    } else {
      value := MaxOverMoves(b, human);
    }
  }

  /** The loop of `MaxValueSearch`: over the legal moves in ascending order,
      fold `max` of each successor's `MinValue` into minus infinity. */
  method MaxOverMoves(b: seq<Mark>, human: Mark) returns (value: int)
    requires |b| == 9 && human != Empty
    ensures value == MaxOf(MinValues(b, human, Actions(b)))
    decreases Count(b, Empty), 0
  {
    value := NegInf;
    var acts := Actions(b);
    ghost var vals := MinValues(b, human, acts);
    for i := 0 to |acts|
      invariant value == MaxOf(vals[..i])
    {
      MinValuesAt(b, human, acts, i);
      var v := MinValueSearch(Next(b, acts[i]), human);
      MaxOfStep(vals, i);
      value := Max(value, v);
    }
    assert vals[..|acts|] == vals;
  }

  /** `MinValue`, computed the way the source computes it: the utility of an
      ended game, otherwise the loop of `MinOverMoves`. */
  method MinValueSearch(b: seq<Mark>, human: Mark) returns (value: int)
    requires |b| == 9 && human != Empty
    ensures value == MinValue(b, human)
    decreases Count(b, Empty), 1
  {
    if Terminal(b) {
      value := Utility(b, human).value;
    } else {
      value := MinOverMoves(b, human);
    }
  }

  /** The loop of `MinValueSearch`: over the legal moves in ascending order,
      fold `min` of each successor's `MaxValue` into plus infinity. */
  method MinOverMoves(b: seq<Mark>, human: Mark) returns (value: int)
    requires |b| == 9 && human != Empty
    ensures value == MinOf(MaxValues(b, human, Actions(b)))
    decreases Count(b, Empty), 0
  {
    value := PosInf;
    var acts := Actions(b);
    ghost var vals := MaxValues(b, human, acts);
    for i := 0 to |acts|
      invariant value == MinOf(vals[..i])
    {
      MaxValuesAt(b, human, acts, i);
      var v := MaxValueSearch(Next(b, acts[i]), human);
      MinOfStep(vals, i);
      value := Min(value, v);
    }
    assert vals[..|acts|] == vals;
  }

  /** From a running game, a move can complete a line only for the side that
      made it: every completed line of the new board carries the mover's mark. */
  lemma OnlyMoverCompletes(b: seq<Mark>, a: int, k: nat)
    requires |b| == 9 && !Terminal(b) && Legal(b, a)
    requires k < |Wins| && Completes(Next(b, a), Wins[k])
    ensures Next(b, a)[Wins[k].0] == Player(b)
  {
    TerminalIffLineOrFull(b);
    assert !Completes(b, Wins[k]);
  }

  /** So a move from a running game leaves either no winner or the mover as
      the winner: two different winners never appear in play. */
  lemma OnlyMoverWins(b: seq<Mark>, a: int)
    requires |b| == 9 && !Terminal(b) && Legal(b, a)
    ensures Winner(Next(b, a)) == None || Winner(Next(b, a)) == Some(Player(b))
  {
    var s := Next(b, a);
    WinnerIsFirstCompleted(s);
    if Winner(s).Some? {
      var k :| 0 <= k < |Wins| && Completes(s, Wins[k]) && Winner(s).value == s[Wins[k].0];
      OnlyMoverCompletes(b, a, k);
    }
  }

  /** The move the bot must choose among the legal moves of `b`: one whose
      successor has the least `MaxValue` of all legal moves, and the lowest
      such move, so that no smaller legal move reaches that least value. */
  predicate IsBestMove(b: seq<Mark>, human: Mark, a: int)
    requires |b| == 9 && human != Empty
  {
    && a in Actions(b)
    && (forall a' :: a' in Actions(b) ==> MaxValue(Next(b, a), human) <= MaxValue(Next(b, a'), human))
    && (forall a' :: a' in Actions(b) && a' < a ==> MaxValue(Next(b, a), human) < MaxValue(Next(b, a'), human))
  }

  /** The bot's move chooser: None on an ended game, otherwise the move
      picked by the scan of `BestMoveScan`. */
  method Minimax(b: seq<Mark>, human: Mark) returns (optimalAction: Option<nat>)
    requires |b| == 9 && human != Empty
    ensures optimalAction.None? <==> Terminal(b)
    ensures optimalAction.Some? ==> IsBestMove(b, human, optimalAction.value)
  {
    if Terminal(b) {
      return None;
    }
    ghost var at;
    optimalAction, at := BestMoveScan(b, human);
    LowestLeastIsBestMove(b, human, at);
  }

  /** At most one move is the best move: the tie-break to the lowest legal
      move makes the bot's choice a function of the board. */
  lemma BestMoveUnique(b: seq<Mark>, human: Mark, a1: int, a2: int)
    requires |b| == 9 && human != Empty
    requires IsBestMove(b, human, a1) && IsBestMove(b, human, a2)
    ensures a1 == a2
  {
  }

  /** The bot's move reaches the minimax value of the board. Seen from the
      bot's side (`ZeroSum`), the same move maximises the bot's own value, so
      minimising the human's value is the bot playing for itself. */
  lemma BestMoveReachesValue(b: seq<Mark>, human: Mark, a: int)
    requires |b| == 9 && human != Empty && !Terminal(b)
    requires IsBestMove(b, human, a)
    ensures MaxValue(Next(b, a), human) == MinValue(b, human)
    ensures MinValue(Next(b, a), Opponent(human)) == MaxValue(b, Opponent(human))
    ensures forall a' :: a' in Actions(b) ==>
      MinValue(Next(b, a'), Opponent(human)) <= MinValue(Next(b, a), Opponent(human))
  {
    MinValueIsBestReply(b, human);
    ZeroSum(b, human);
    ZeroSum(Next(b, a), human);
    forall a' | a' in Actions(b)
      ensures MinValue(Next(b, a'), Opponent(human)) <= MinValue(Next(b, a), Opponent(human))
    {
      ZeroSum(Next(b, a'), human);
    }
  }

  /** `at` is the first position holding the least of `vals`. */
  predicate FirstLeast(vals: seq<int>, at: int)
  {
    && 0 <= at < |vals|
    && (forall j :: 0 <= j < |vals| ==> vals[at] <= vals[j])
    && (forall j :: 0 <= j < at ==> vals[at] < vals[j])
  }

  /** A move at a position of the least successor value is worth no more
      than any legal move. */
  lemma LeastIsNoWorse(b: seq<Mark>, human: Mark, at: nat, a': int)
    requires |b| == 9 && human != Empty
    requires FirstLeast(MaxValues(b, human, Actions(b)), at)
    requires a' in Actions(b)
    ensures MaxValue(Next(b, Actions(b)[at]), human) <= MaxValue(Next(b, a'), human)
  {
    var acts := Actions(b);
    MaxValuesAt(b, human, acts, at);
    var j :| 0 <= j < |acts| && acts[j] == a';
    MaxValuesAt(b, human, acts, j);
  }

  /** A move at the first position of the least successor value is worth
      strictly less than every smaller legal move. */
  lemma FirstLeastBeatsSmaller(b: seq<Mark>, human: Mark, at: nat, a': int)
    requires |b| == 9 && human != Empty
    requires FirstLeast(MaxValues(b, human, Actions(b)), at)
    requires a' in Actions(b) && a' < Actions(b)[at]
    ensures MaxValue(Next(b, Actions(b)[at]), human) < MaxValue(Next(b, a'), human)
  {
    var acts := Actions(b);
    MaxValuesAt(b, human, acts, at);
    var j :| 0 <= j < |acts| && acts[j] == a';
    if at < j {
      IncreasingOrder(acts, at, j);
    }
    MaxValuesAt(b, human, acts, j);
  }

  /** The first position of the least successor value is the position of
      the best move in `Actions`. */
  lemma {:induction false} LowestLeastIsBestMove(b: seq<Mark>, human: Mark, at: nat)
    requires |b| == 9 && human != Empty
    requires FirstLeast(MaxValues(b, human, Actions(b)), at)
    ensures IsBestMove(b, human, Actions(b)[at])
  {
    MaxValuesAt(b, human, Actions(b), at);
    forall a' | a' in Actions(b) {
      LeastIsNoWorse(b, human, at, a');
    }
    forall a' | a' in Actions(b) && a' < Actions(b)[at] {
      FirstLeastBeatsSmaller(b, human, at, a');
    }
  }

  /** The value for the human of the board after the `i`-th legal move. */
  method MoveValue(b: seq<Mark>, human: Mark, i: nat) returns (value: int)
    requires |b| == 9 && human != Empty && i < |Actions(b)|
    ensures value == MaxValues(b, human, Actions(b))[i]
  {
    MaxValuesAt(b, human, Actions(b), i);
    value := MaxValueSearch(Next(b, Actions(b)[i]), human);
  }

  /** The loop of `Minimax`: over the legal moves in ascending order, keep a
      move only when its successor's `MaxValue` is strictly below the least
      seen so far, starting from plus infinity. */
  method BestMoveScan(b: seq<Mark>, human: Mark) returns (optimalAction: Option<nat>, ghost at: nat)
    requires |b| == 9 && human != Empty
    ensures optimalAction.None? <==> Actions(b) == []
    ensures optimalAction.Some? ==>
              at < |Actions(b)| && optimalAction.value == Actions(b)[at]
              && FirstLeast(MaxValues(b, human, Actions(b)), at)
  {
    var minimalVal := PosInf;
    optimalAction := None;
    var acts := Actions(b);
    ghost var vals := MaxValues(b, human, acts);
    at := 0;
    for i := 0 to |acts|
      invariant at <= i
      invariant i == 0 ==> optimalAction.None? && minimalVal == PosInf
      invariant 0 < i ==> at < i && optimalAction == Some(acts[at]) && minimalVal == vals[at]
      invariant forall j :: 0 <= j < i ==> minimalVal <= vals[j]
      invariant forall j :: 0 <= j < at ==> minimalVal < vals[j]
    {
      var value := MoveValue(b, human, i);
      value := Min(minimalVal, value);
      if value < minimalVal {
        minimalVal := value;
        optimalAction := Some(acts[i]);
        at := i;
      }
    }
  }

  /** Six marks placed, X to move as the bot against the human O. */
  const DiagonalBoard: seq<Mark> := [X, O, X, O, X, O, Empty, Empty, Empty]

  /** Cell 6 completes the diagonal 2-4-6 at once, so the bot wins there; no
      legal move is smaller, so 6 is the move the bot must choose. */
  lemma DiagonalReplyIsBestMove()
    ensures Legal(DiagonalBoard, 6)
    ensures Winner(Next(DiagonalBoard, 6)) == Some(X)
    ensures IsBestMove(DiagonalBoard, O, 6)
  {
    var b := DiagonalBoard;
    assert Legal(b, 6);
    assert Player(b) == X;
    var s := Next(b, 6);
    assert s == [X, O, X, O, X, O, X, Empty, Empty];
    WinnerIsFirstCompleted(s);
    assert Completes(s, Wins[7]);
    assert !Completes(s, Wins[0]) && !Completes(s, Wins[1]) && !Completes(s, Wins[2]) && !Completes(s, Wins[3]);
    assert !Completes(s, Wins[4]) && !Completes(s, Wins[5]) && !Completes(s, Wins[6]);
    ValueOfEndedGame(s, O);
    assert MaxValue(s, O) == -1;
    forall a' | a' in Actions(b) ensures 6 <= a' {
      assert Legal(b, a');
    }
  }
}
