/** What holds of every run of game_thread, whatever the two players send. */
module NimGameTheorems {
  import opened Options
  import opened CText
  import opened NimBoard
  import opened NimWire
  import opened NimGame

  // ----- transcripts of moves -----

  /** The moves alternate from player 1 on and each is legal where it is made. */
  predicate Legit(ms: seq<Move>)
    decreases |ms|, 0
  {
    ms == [] ||
    var n := |ms| - 1;
    && Legit(ms[..n])
    && ms[n].player == 1 + n % 2
    && LegalMove(BoardAfter(ms[..n]), ms[n].pile, ms[n].amount)
  }

  function BoardAfter(ms: seq<Move>): Board
    requires Legit(ms)
    decreases |ms|, 1
  {
    if ms == [] then OPENING
    else
      var n := |ms| - 1;
      AfterMove(BoardAfter(ms[..n]), ms[n].pile, ms[n].amount)
  }

  function Taken(ms: seq<Move>): int {
    if ms == [] then 0 else Taken(ms[..|ms| - 1]) + ms[|ms| - 1].amount
  }

  lemma {:induction false} LegitPrefix(ms: seq<Move>, n: nat)
    requires Legit(ms) && n <= |ms|
    ensures Legit(ms[..n])
    decreases |ms|
  {
    if n == |ms| {
      assert ms[..n] == ms;
    } else {
      LegitPrefix(ms[..|ms| - 1], n);
      assert ms[..|ms| - 1][..n] == ms[..n];
    }
  }

  /** Stones are conserved, no pile leaves its initial range, and there are at most 25
      moves. */
  lemma {:induction false} Conservation(ms: seq<Move>)
    requires Legit(ms)
    ensures Stones(BoardAfter(ms)) + Taken(ms) == 25
    ensures |BoardAfter(ms)| == 5 && forall i :: 0 <= i < 5 ==> BoardAfter(ms)[i] <= OPENING[i]
    ensures |ms| <= Taken(ms) <= 25
    decreases |ms|
  {
    if ms == [] {
      OpeningStones();
    } else {
      var n := |ms| - 1;
      Conservation(ms[..n]);
      MoveTakesStones(BoardAfter(ms[..n]), ms[n].pile, ms[n].amount);
    }
  }

  lemma OpeningStones()
    ensures Stones(OPENING) == 25
  {
    assert OPENING[1..] == [3, 5, 7, 9] && OPENING[2..] == [5, 7, 9];
    assert OPENING[3..] == [7, 9] && OPENING[4..] == [9] && OPENING[5..] == [];
    assert Stones([9]) == 9;
    assert Stones([7, 9]) == 16;
    assert Stones([5, 7, 9]) == 21;
    assert Stones([3, 5, 7, 9]) == 24;
  }

  // ----- the invariant of the loop -----

  /** A PLAY or OVER carries the board, and a PLAY the turn, of the moment it is sent. */
  predicate Current(ms: seq<Move>, s: Sent)
    requires Legit(ms)
  {
    && s.after <= |ms|
    && Legit(ms[..s.after])
    && match s.msg
       case Play(turn, board) => turn == 1 + s.after % 2 && board == BoardText(BoardAfter(ms[..s.after]))
       case Over(winner, board, reason) => board == BoardText(BoardAfter(ms[..s.after]))
       case _ => true
  }

  ghost predicate Sound(g: Game) {
    && Legit(g.moves) && g.piles == BoardAfter(g.moves)
    && forall i :: 0 <= i < |g.sent| ==> Current(g.moves, g.sent[i])
  }

  ghost predicate Playing(g: Game) {
    && !g.over && g.winner == 0 && g.reason == ""
    && g.turn == 1 + |g.moves| % 2
    && g.board == BoardText(g.piles)
    && Stones(g.piles) > 0
  }

  ghost predicate Inv(g: Game) {
    Sound(g) && (Playing(g) || g.over)
  }

  lemma SendKeepsSound(g: Game, to: int, msg: Announcement)
    requires Sound(g)
    requires msg.Play? ==> msg.turn == 1 + |g.moves| % 2 && msg.board == BoardText(g.piles)
    requires msg.Over? ==> msg.board == BoardText(g.piles)
    ensures Sound(g.Send(to, msg))
  {
    assert g.moves[..|g.moves|] == g.moves;
    assert Current(g.moves, Sent(to, msg, |g.moves|));
  }

  lemma OpeningInv(name1: string, name2: string)
    ensures Inv(Opening(name1, name2))
  {
    hide BoardText;
    OpeningStones();
    var g := Game(OPENING, 1, BoardText(OPENING), false, 0, "", [], []);
    var p := Play(1, BoardText(OPENING));
    SendKeepsSound(g, 1, Name(1, name2));
    SendKeepsSound(g.Send(1, Name(1, name2)), 2, Name(2, name1));
    SendKeepsSound(g.Send(1, Name(1, name2)).Send(2, Name(2, name1)), 1, p);
    SendKeepsSound(g.Send(1, Name(1, name2)).Send(2, Name(2, name1)).Send(1, p), 2, p);
  }

  lemma IdleInv(g: Game, r: Option<Received>)
    requires Inv(g) && !g.over
    ensures Inv(IdlePart(g, r)) && IdlePart(g, r).turn == g.turn && IdlePart(g, r).moves == g.moves
  {
    var idle := Other(g.turn);
    hide BoardText, Legit, BoardAfter;
    SendKeepsSound(g, idle, Fail(10, "Invalid"));
    SendKeepsSound(g, idle, Fail(31, "Impatient"));
    SendKeepsSound(g.Send(idle, Fail(31, "Impatient")), idle, Play(g.turn, g.board));
  }

  lemma ActiveInv(g: Game, r: Option<Received>, atoi: string -> int)
    requires Inv(g) && !g.over
    ensures Inv(ActivePart(g, r, atoi))
  {
    hide BoardText, Legit, BoardAfter, MovePart;
    SendKeepsSound(g, g.turn, Fail(10, "Invalid"));
    if r.Some? && r.value.Message? && Find(r.value.body, '|').Some? {
      var i := Find(r.value.body, '|').value;
      MoveInv(g, atoi(r.value.body[..i]), atoi(r.value.body[i + 1..]));
    }
  }

  lemma MoveInv(g: Game, pile: int, amount: int)
    requires Inv(g) && !g.over
    ensures Inv(MovePart(g, pile, amount))
  {
    hide BoardText, Legit, BoardAfter, Sound;
    if LegalMove(g.piles, pile, amount) {
      AcceptedInv(g, pile, amount);
    } else {
      SendKeepsSound(g, g.turn, Fail(32, "Pile Index"));
      SendKeepsSound(g, g.turn, Fail(33, "Quantity"));
      SendKeepsSound(g.Send(g.turn, Fail(32, "Pile Index")), g.turn, Play(g.turn, g.board));
      SendKeepsSound(g.Send(g.turn, Fail(33, "Quantity")), g.turn, Play(g.turn, g.board));
    }
  }

  lemma AcceptedInv(g: Game, pile: int, amount: int)
    requires Inv(g) && !g.over && LegalMove(g.piles, pile, amount)
    ensures Inv(MovePart(g, pile, amount))
  {
    hide BoardText, Legit, BoardAfter, Sound, Stones;
    ExtendSound(g, pile, amount);
    var b := AfterMove(g.piles, pile, amount);
    var h := g.(piles := b, moves := g.moves + [Move(g.turn, pile, amount)]);
    if Stones(b) != 0 {
      var k := h.(turn := Other(g.turn), board := BoardText(b));
      SameSound(h, k);
      var p := Play(Other(g.turn), BoardText(b));
      SendKeepsSound(k, 1, p);
      SendKeepsSound(k.Send(1, p), 2, p);
    } else {
      SameSound(h, h.(over := true, winner := g.turn, reason := ""));
    }
  }

  lemma SameSound(g: Game, h: Game)
    requires Sound(g) && h.moves == g.moves && h.piles == g.piles && h.sent == g.sent
    ensures Sound(h)
  {
  }

  /** An accepted move extends the transcript; what was sent before was current then. */
  lemma ExtendSound(g: Game, pile: int, amount: int)
    requires Sound(g) && g.turn == 1 + |g.moves| % 2 && LegalMove(g.piles, pile, amount)
    ensures Sound(g.(piles := AfterMove(g.piles, pile, amount), moves := g.moves + [Move(g.turn, pile, amount)]))
  {
    var ms := g.moves + [Move(g.turn, pile, amount)];
    assert ms[..|g.moves|] == g.moves;
    forall i | 0 <= i < |g.sent| ensures Current(ms, g.sent[i]) {
      assert Current(g.moves, g.sent[i]);
      assert ms[..g.sent[i].after] == g.moves[..g.sent[i].after];
    }
  }

  // ----- every run -----

  lemma TurnInv(g: Game, e: Poll, atoi: string -> int)
    requires Inv(g) && !g.over
    ensures Inv(Turn(g, e, atoi))
  {
    hide IdlePart, ActivePart, Inv;
    var h := IdlePart(g, e.Of(Other(g.turn)));
    IdleInv(g, e.Of(Other(g.turn)));
    if !h.over {
      ActiveInv(h, e.Of(g.turn), atoi);
    }
  }

  lemma {:induction false} LoopInv(g: Game, es: seq<Poll>, atoi: string -> int)
    requires Inv(g)
    ensures Inv(Loop(g, es, atoi))
    decreases |es|
  {
    if !g.over && es != [] {
      hide Turn, Inv;
      TurnInv(g, es[0], atoi);
      LoopInv(Turn(g, es[0], atoi), es[1..], atoi);
    }
  }

  /** In every run the moves alternate and are legal, the piles are what they leave, and every
      board ever sent is that of its moment; the announcement of the result included. */
  lemma {:induction false} GameIsSound(name1: string, name2: string, es: seq<Poll>, atoi: string -> int)
    ensures Inv(Loop(Opening(name1, name2), es, atoi))
    ensures Sound(Loop(Opening(name1, name2), es, atoi))
    ensures Sound(Closing(Loop(Opening(name1, name2), es, atoi)))
  {
    OpeningInv(name1, name2);
    LoopInv(Opening(name1, name2), es, atoi);
    var g := Loop(Opening(name1, name2), es, atoi);
    var h := g.(board := BoardText(g.piles));
    hide BoardText, Loop, Opening, Legit, BoardAfter;
    SendKeepsSound(h, 1, Over(g.winner, h.board, g.reason));
    SendKeepsSound(h.Send(1, Over(g.winner, h.board, g.reason)), 2, Over(g.winner, h.board, g.reason));
  }

  /** The numbers of every game: 25 stones in all, piles within their initial range, player
      1 to move after an even number of moves, and at most 25 moves. */
  lemma {:induction false} GameNumbers(name1: string, name2: string, es: seq<Poll>, atoi: string -> int)
    ensures var g := Loop(Opening(name1, name2), es, atoi);
            && Stones(g.piles) + Taken(g.moves) == 25
            && |g.piles| == 5 && (forall i :: 0 <= i < 5 ==> g.piles[i] <= OPENING[i])
            && |g.moves| <= 25
            && (!g.over ==> (g.turn == 1 <==> |g.moves| % 2 == 0))
  {
    GameIsSound(name1, name2, es, atoi);
    var g := Loop(Opening(name1, name2), es, atoi);
    hide Loop, Opening, BoardText;
    Conservation(g.moves);
    if g.over && g.moves != [] {
      assert Legit(g.moves[..|g.moves| - 1]);
    }
  }

  // ----- what the players know -----

  /** The last PLAY sent to a player. */
  function LastPlay(sent: seq<Sent>, player: int): Option<Announcement> {
    if sent == [] then None
    else
      var last := sent[|sent| - 1];
      if last.to == player && last.msg.Play? then Some(last.msg) else LastPlay(sent[..|sent| - 1], player)
  }

  /** A FAIL that does not end the game. */
  predicate Rejects(msg: Announcement) {
    msg.Fail? && msg.code != 10
  }

  /** Every rejection is followed at once by a PLAY to the same player. */
  predicate Reminded(sent: seq<Sent>) {
    forall i :: 0 <= i < |sent| && Rejects(sent[i].msg) ==>
      i + 1 < |sent| && sent[i + 1].to == sent[i].to && sent[i + 1].msg.Play?
  }

  ghost predicate Informed(g: Game) {
    && Reminded(g.sent)
    && (!g.over ==> LastPlay(g.sent, 1) == LastPlay(g.sent, 2) == Some(Play(g.turn, g.board)))
  }

  lemma LastPlaySend(g: Game, to: int, msg: Announcement)
    ensures forall p :: LastPlay(g.Send(to, msg).sent, p) ==
                        if to == p && msg.Play? then Some(msg) else LastPlay(g.sent, p)
  {
    assert (g.sent + [Sent(to, msg, |g.moves|)])[..|g.sent|] == g.sent;
  }

  lemma SendReminded(g: Game, to: int, msg: Announcement)
    requires Reminded(g.sent) && !Rejects(msg)
    ensures Reminded(g.Send(to, msg).sent)
  {
    var sent := g.Send(to, msg).sent;
    forall i | 0 <= i < |sent| && Rejects(sent[i].msg)
      ensures i + 1 < |sent| && sent[i + 1].to == sent[i].to && sent[i + 1].msg.Play?
    {
      assert i < |g.sent| && sent[i] == g.sent[i];
    }
  }

  /** A rejection and its reminder. */
  lemma RejectInformed(g: Game, to: int, fail: Announcement)
    requires Informed(g) && !g.over && fail.Fail?
    ensures Informed(g.Send(to, fail).Send(to, Play(g.turn, g.board)))
  {
    var p := Play(g.turn, g.board);
    var h := g.Send(to, fail);
    LastPlaySend(g, to, fail);
    LastPlaySend(h, to, p);
    var sent := h.Send(to, p).sent;
    forall i | 0 <= i < |sent| && Rejects(sent[i].msg)
      ensures i + 1 < |sent| && sent[i + 1].to == sent[i].to && sent[i + 1].msg.Play?
    {
      assert i < |g.sent| ==> sent[i] == g.sent[i];
    }
  }

  lemma BothInformed(g: Game, turn: int, board: string)
    requires Reminded(g.sent) && g.turn == turn && g.board == board
    ensures Informed(g.SendBoth(Play(turn, board)))
  {
    LastPlaySend(g, 1, Play(turn, board));
    LastPlaySend(g.Send(1, Play(turn, board)), 2, Play(turn, board));
    SendReminded(g, 1, Play(turn, board));
    SendReminded(g.Send(1, Play(turn, board)), 2, Play(turn, board));
  }

  lemma OpeningInformed(name1: string, name2: string)
    ensures Informed(Opening(name1, name2))
  {
    hide BoardText, LastPlay;
    var g := Game(OPENING, 1, BoardText(OPENING), false, 0, "", [], []);
    SendReminded(g, 1, Name(1, name2));
    SendReminded(g.Send(1, Name(1, name2)), 2, Name(2, name1));
    BothInformed(g.Send(1, Name(1, name2)).Send(2, Name(2, name1)), 1, BoardText(OPENING));
  }

  lemma TurnInformed(g: Game, e: Poll, atoi: string -> int)
    requires Informed(g) && !g.over
    ensures Informed(Turn(g, e, atoi))
  {
    var idle := Other(g.turn);
    var h := IdlePart(g, e.Of(idle));
    hide LastPlay, BoardText;
    RejectInformed(g, idle, Fail(31, "Impatient"));
    SendReminded(g, idle, Fail(10, "Invalid"));
    assert Informed(h) && h.turn == g.turn;
    hide IdlePart;
    if !h.over {
      ActiveInformed(h, e.Of(g.turn), atoi);
    }
  }

  lemma ActiveInformed(g: Game, r: Option<Received>, atoi: string -> int)
    requires Informed(g) && !g.over
    ensures Informed(ActivePart(g, r, atoi))
  {
    hide LastPlay, BoardText, MovePart;
    SendReminded(g, g.turn, Fail(10, "Invalid"));
    if r.Some? && r.value.Message? && Find(r.value.body, '|').Some? {
      var i := Find(r.value.body, '|').value;
      MoveInformed(g, atoi(r.value.body[..i]), atoi(r.value.body[i + 1..]));
    }
  }

  lemma MoveInformed(g: Game, pile: int, amount: int)
    requires Informed(g) && !g.over
    ensures Informed(MovePart(g, pile, amount))
  {
    hide LastPlay, BoardText, Stones;
    RejectInformed(g, g.turn, Fail(32, "Pile Index"));
    RejectInformed(g, g.turn, Fail(33, "Quantity"));
    if LegalMove(g.piles, pile, amount) {
      var b := AfterMove(g.piles, pile, amount);
      var h := g.(piles := b, moves := g.moves + [Move(g.turn, pile, amount)]);
      BothInformed(h.(turn := Other(g.turn), board := BoardText(b)), Other(g.turn), BoardText(b));
    }
  }

  lemma {:induction false} LoopInformed(g: Game, es: seq<Poll>, atoi: string -> int)
    requires Informed(g)
    ensures Informed(Loop(g, es, atoi))
    decreases |es|
  {
    if !g.over && es != [] {
      hide Informed, Turn;
      TurnInformed(g, es[0], atoi);
      LoopInformed(Turn(g, es[0], atoi), es[1..], atoi);
    }
  }

  /** As long as the game lasts, the last PLAY each player was sent shows the current turn and
      board; and a player whose message is rejected is reminded at once. */
  lemma {:induction false} PlayersAreInformed(name1: string, name2: string, es: seq<Poll>, atoi: string -> int)
    ensures var g := Loop(Opening(name1, name2), es, atoi);
            && Reminded(g.sent)
            && (!g.over ==> forall p :: 1 <= p <= 2 ==> LastPlay(g.sent, p) == Some(Play(g.turn, BoardText(g.piles))))
  {
    hide *;
    OpeningInformed(name1, name2);
    LoopInformed(Opening(name1, name2), es, atoi);
    GameIsSound(name1, name2, es, atoi);
    InformedBoards(Loop(Opening(name1, name2), es, atoi));
  }

  lemma InformedBoards(g: Game)
    requires Inv(g) && Informed(g)
    ensures Reminded(g.sent)
    ensures !g.over ==> forall p :: 1 <= p <= 2 ==> LastPlay(g.sent, p) == Some(Play(g.turn, BoardText(g.piles)))
  {
    hide BoardText, LastPlay, Reminded, Sound, Stones;
  }
}
