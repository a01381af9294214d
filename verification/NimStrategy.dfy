/** Player 1's winning strategy in the game that nimd.c runs, and the game thread as a whole. */
module NimStrategy {
  import opened Options
  import opened NimBoard
  import opened NimGame
  import opened NimGameTheorems
  import opened NimOutcome
  import opened NimReferee

  // ----- the opening board -----

  lemma OpeningNimSum()
    ensures NimSum(OPENING) == 9
  {
    OpeningXors();
    hide Xor;
    assert OPENING[1..] == [3, 5, 7, 9] && OPENING[2..] == [5, 7, 9];
    assert OPENING[3..] == [7, 9] && OPENING[4..] == [9] && OPENING[5..] == [];
    assert NimSum([9]) == 9;
    assert NimSum([7, 9]) == 14;
    assert NimSum([5, 7, 9]) == 11;
    assert NimSum([3, 5, 7, 9]) == 8;
  }

  lemma OpeningXors()
    ensures Xor(9, 0) == 9 && Xor(7, 9) == 14 && Xor(5, 14) == 11 && Xor(3, 11) == 8 && Xor(1, 8) == 9
  {
    XorZero(9);
    XorBits(7, 9); XorBits(3, 4); XorBits(1, 2); XorZero(1);
    XorBits(5, 14); XorBits(2, 7); XorBits(1, 3);
    XorBits(3, 11); XorBits(1, 5); XorZero(2);
    XorBits(1, 8); XorZero(4);
    hide Xor;
    assert Xor(1, 2) == 3 && Xor(1, 3) == 2 && Xor(1, 5) == 4;
    assert Xor(3, 4) == 7 && Xor(2, 7) == 5;
  }

  // ----- the winning strategy -----

  /** Every move of player 1 leaves a board with nim sum zero. */
  ghost predicate Balanced(ms: seq<Move>)
    requires Legit(ms)
  {
    forall i :: 0 <= i < |ms| && i % 2 == 0 ==> LeavesZero(ms, i)
  }

  ghost predicate LeavesZero(ms: seq<Move>, i: nat)
    requires Legit(ms) && i < |ms|
  {
    LegitPrefix(ms, i + 1);
    NimSum(BoardAfter(ms[..i + 1])) == 0
  }

  /** Then player 1 always finds a non-zero and player 2 a zero nim sum. */
  lemma {:induction false} BalancedBoards(ms: seq<Move>)
    requires Legit(ms) && Balanced(ms)
    ensures |ms| % 2 == 0 <==> NimSum(BoardAfter(ms)) != 0
  {
    hide *;
    var n := |ms| - 1;
    if ms == [] {
      OpeningBoard();
      OpeningNimSum();
    } else if n % 2 == 0 {
      ZeroAfter(ms, n);
      assert ms[..n + 1] == ms;
    } else {
      ZeroAfter(ms, n - 1);
      assert ms[..n - 1 + 1] == ms[..n];
      ThenNonZero(ms);
    }
  }

  lemma OpeningBoard()
    ensures Legit([]) && BoardAfter([]) == OPENING
  {
  }

  lemma {:induction false} ZeroAfter(ms: seq<Move>, i: nat)
    requires Legit(ms) && Balanced(ms) && i < |ms| && i % 2 == 0
    ensures Legit(ms[..i + 1]) && NimSum(BoardAfter(ms[..i + 1])) == 0
  {
    assert LeavesZero(ms, i);
    LegitPrefix(ms, i + 1);
  }

  lemma {:induction false} ThenNonZero(ms: seq<Move>)
    requires Legit(ms) && ms != [] && NimSum(BoardAfter(ms[..|ms| - 1])) == 0
    ensures NimSum(BoardAfter(ms)) != 0
  {
    var n := |ms| - 1;
    UnbalancingMoves(BoardAfter(ms[..n]), ms[n].pile, ms[n].amount);
    hide NimSum;
  }

  lemma {:induction false} NoStonesNoSum(b: Board)
    requires Stones(b) == 0
    ensures NimSum(b) == 0
  {
    if b != [] {
      NoStonesNoSum(b[1..]);
    }
  }

  /** Player 1 can always force a win from the opening board. */
  lemma OpeningIsWon()
    ensures CanForceWin(OPENING)
  {
    OpeningNimSum();
    Bouton(OPENING);
  }

  /** The game that began with `g` is ended by player 1 leaving, or by either player breaking
      the protocol. */
  ghost predicate Forgone(g: Game, es: seq<Poll>, atoi: string -> int) {
    exists n, c :: EndsAt(g, es, atoi, n, c) && (c == LeftBy(1) || c.ErrorBy?)
  }

  /** And how, in the game that the server runs: as long as every accepted move of player 1
      leaves nim sum zero, player 1 has such a move whenever it is on turn, and wins exactly
      the games that are over without player 1 having left or either player having broken the
      protocol; whatever player 2 sends, and also when player 2 leaves. */
  lemma {:induction false} PlayerOneWins(name1: string, name2: string, es: seq<Poll>, atoi: string -> int)
    requires Legit(Loop(Opening(name1, name2), es, atoi).moves)
    requires Balanced(Loop(Opening(name1, name2), es, atoi).moves)
    ensures var g := Loop(Opening(name1, name2), es, atoi);
            && (!g.over && g.turn == 1 ==>
                  exists pile, amount :: LegalMove(g.piles, pile, amount) &&
                                         NimSum(AfterMove(g.piles, pile, amount)) == 0)
            && (g.over ==> (g.winner == 1 <==> !Forgone(Opening(name1, name2), es, atoi)))
  {
    hide Loop, Opening, BoardText, NimSum, Legit, BoardAfter, Balanced, EndsAt, EndedBy, Sound, AfterMove;
    GameIsSound(name1, name2, es, atoi);
    GameEndsIff(name1, name2, es, atoi);
    var g := Loop(Opening(name1, name2), es, atoi);
    SoundIs(g);
    if !g.over && g.turn == 1 {
      GameNumbers(name1, name2, es, atoi);
      BalancedBoards(g.moves);
      var pile, amount := BalancingMove(g.piles);
    }
    if g.over {
      var n, c :| EndsAt(Opening(name1, name2), es, atoi, n, c);
      BalancedWinner(g, c);
      forall m, d | EndsAt(Opening(name1, name2), es, atoi, m, d)
        ensures g.winner == 1 <==> !(d == LeftBy(1) || d.ErrorBy?)
      {
        BalancedWinner(g, d);
      }
    }
  }

  /** Whatever ended the game, player 1 has won it unless it left or there was an error. */
  lemma BalancedWinner(g: Game, c: Cause)
    requires Legit(g.moves) && g.piles == BoardAfter(g.moves) && Balanced(g.moves) && EndedBy(g, c)
    ensures g.winner == 1 <==> !(c == LeftBy(1) || c.ErrorBy?)
  {
    hide NimSum, Stones, Legit, BoardAfter, Balanced;
    if c.LastStoneOf? {
      NoStonesNoSum(g.piles);
      BalancedBoards(g.moves);
      LastMover(g.moves);
    }
  }

  lemma {:induction false} LastMover(ms: seq<Move>)
    requires Legit(ms) && ms != []
    ensures ms[|ms| - 1].player == 1 + (|ms| - 1) % 2
  {
  }

  // ----- the thread itself -----

  /** A game thread from its start: what is proved of the loop holds of the thread's own
      variables when it stops, or waits in poll for ever. */
  method PlayGame(name1: string, name2: string, events: seq<Poll>, atoi: string -> int) returns (t: GameThread)
    ensures fresh(t) && t.piles.Length == 5
    ensures t.moves == Transcript(OPENING, 1, events, atoi)
    ensures t.sent == Greeting(name1, name2) + Dialogue(OPENING, 1, 0, events, atoi) + Farewell(t.State())
    ensures Legit(t.moves) && t.piles[..] == BoardAfter(t.moves)
    ensures Stones(t.piles[..]) + Taken(t.moves) == 25 && |t.moves| <= 25
    ensures forall i :: 0 <= i < |t.sent| ==> Current(t.moves, t.sent[i])
    ensures Reminded(t.sent)
    ensures !t.over ==> forall p :: 1 <= p <= 2 ==> LastPlay(t.sent, p) == Some(Play(t.turn, BoardText(t.piles[..])))
    ensures t.over <==> exists n, c :: EndsAt(Opening(name1, name2), events, atoi, n, c)
    ensures forall n, c :: EndsAt(Opening(name1, name2), events, atoi, n, c) ==> EndedBy(t.State(), c)
    ensures t.winner != 0 ==> ToldBoth(t.sent, Over(t.winner, BoardText(t.piles[..]), t.reason), |t.moves|)
    ensures Balanced(t.moves) && t.over ==> (t.winner == 1 <==> !Forgone(Opening(name1, name2), events, atoi))
  {
    hide Loop, Opening, Closing, Legit, Balanced, EndsAt, EndedBy, BoardText, BoardAfter, Current, Taken, Stones,
      ToldBoth, Forgone, Sound, Inv, Reminded, LastPlay, Transcript, Dialogue, Greeting, Farewell;
    t := new GameThread(name1, name2);
    t.Run(events, atoi);
    ghost var g := Loop(Opening(name1, name2), events, atoi);
    GameIsSound(name1, name2, events, atoi);
    GameNumbers(name1, name2, events, atoi);
    GameEndsIff(name1, name2, events, atoi);
    PlayersAreInformed(name1, name2, events, atoi);
    WholeGame(name1, name2, events, atoi);
    ClosingKeeps(g);
    ClosingReminds(g);
    SoundIs(g);
    SoundIs(t.State());
    forall n, c | EndsAt(Opening(name1, name2), events, atoi, n, c) ensures EndedBy(t.State(), c) {
      SameEnd(g, t.State(), c);
    }
    if Balanced(t.moves) {
      PlayerOneWins(name1, name2, events, atoi);
    }
  }

  /** The messages before the loop: to each player its number, the name of the other, and the
      opening board. */
  function Greeting(name1: string, name2: string): seq<Sent> {
    var p := Play(1, "1 3 5 7 9");
    [Sent(1, Name(1, name2), 0), Sent(2, Name(2, name1), 0), Sent(1, p, 0), Sent(2, p, 0)]
  }

  /** The messages behind the loop: the result, to both players, if there is a winner. */
  function Farewell(g: Game): seq<Sent> {
    if !g.over || g.winner == 0 then []
    else
      var over := Over(g.winner, BoardText(g.piles), g.reason);
      [Sent(1, over, |g.moves|), Sent(2, over, |g.moves|)]
  }

  /** The moves and the messages of the loop, from the first to the last. */
  lemma {:induction false} WholeGame(name1: string, name2: string, es: seq<Poll>, atoi: string -> int)
    ensures var g := Loop(Opening(name1, name2), es, atoi);
            && g.moves == Transcript(OPENING, 1, es, atoi)
            && g.sent == Greeting(name1, name2) + Dialogue(OPENING, 1, 0, es, atoi)
            && (!g.over ==> Farewell(g) == [])
  {
    hide Loop, Opening, Transcript, Dialogue;
    OpeningInv(name1, name2);
    OpeningIs(name1, name2);
    LoopIs(Opening(name1, name2), es, atoi);
    assert [] + Transcript(OPENING, 1, es, atoi) == Transcript(OPENING, 1, es, atoi);
  }

  /** The last two messages tell both players the same. */
  predicate ToldBoth(sent: seq<Sent>, msg: Announcement, after: nat) {
    |sent| >= 2 && sent[|sent| - 2..] == [Sent(1, msg, after), Sent(2, msg, after)]
  }

  lemma ClosingKeeps(g: Game)
    ensures var h := Closing(g);
            && h.piles == g.piles && h.moves == g.moves
            && h.over == g.over && h.winner == g.winner && h.reason == g.reason
            && h.sent == g.sent + Farewell(h)
            && (g.over && g.winner != 0 ==> ToldBoth(h.sent, Over(g.winner, BoardText(g.piles), g.reason), |g.moves|))
  {
    hide BoardText;
  }

  lemma ClosingReminds(g: Game)
    requires Reminded(g.sent)
    ensures Reminded(Closing(g).sent)
  {
    hide BoardText, Reminded;
    var h := g.(board := BoardText(g.piles));
    var over := Over(g.winner, h.board, g.reason);
    SendReminded(h, 1, over);
    SendReminded(h.Send(1, over), 2, over);
  }

  lemma SoundIs(g: Game)
    requires Sound(g)
    ensures Legit(g.moves) && g.piles == BoardAfter(g.moves)
    ensures forall i :: 0 <= i < |g.sent| ==> Current(g.moves, g.sent[i])
  {
  }

  lemma SameEnd(g: Game, h: Game, c: Cause)
    requires EndedBy(g, c) && h.piles == g.piles && h.moves == g.moves
    requires h.over == g.over && h.winner == g.winner && h.reason == g.reason
    ensures EndedBy(h, c)
  {
  }
}
