/** What one turn of the loop of nimd.c does with the messages it hears, told without the loop's
    own variables, and from that the whole transcript of moves and messages of a game. */
module NimReferee {
  import opened Options
  import opened CText
  import opened NimBoard
  import opened NimWire
  import opened NimGame
  import opened NimGameTheorems
  import opened NimOutcome

  // ----- what is asked -----

  /** The arguments of a MOVE: the numbers before and behind the first bar of its body. */
  function Asked(r: Option<Received>, atoi: string -> int): Option<(int, int)> {
    if r.Some? && r.value.Message? && r.value.kind == "MOVE" && '|' in r.value.body then
      var i := Find(r.value.body, '|').value;
      Some((atoi(r.value.body[..i]), atoi(r.value.body[i + 1..])))
    else None
  }

  /** The move that is made in a turn: the one the player on turn is heard to ask for, if it
      names one of the piles and takes between one and all of its stones. */
  function Granted(b: Board, turn: int, e: Poll, atoi: string -> int): (m: Option<Move>)
    ensures m.Some? ==> m.value.player == turn && 0 <= m.value.pile < |b| && 1 <= m.value.amount <= b[m.value.pile]
  {
    var idle, asked := e.Of(Other(turn)), Asked(e.Of(turn), atoi);
    if idle == Some(Closed) || Breaks(idle, false) || asked == None then None
    else
      var (pile, amount) := asked.value;
      if 0 <= pile < |b| && 1 <= amount <= b[pile] then Some(Move(turn, pile, amount)) else None
  }

  /** The board after the move of a turn. */
  function Next(b: Board, turn: int, e: Poll, atoi: string -> int): (n: Board)
    ensures |n| == |b|
  {
    match Granted(b, turn, e, atoi)
    case None => b
    case Some(m) => b[m.pile := b[m.pile] - m.amount]
  }

  // ----- what is answered -----

  /** The answers to the idle player, after `n` moves. */
  function ToIdle(b: Board, turn: int, n: nat, r: Option<Received>): seq<Sent> {
    var idle := Other(turn);
    if r.None? || r.value.Closed? then []
    else if r.value.Invalid? then [Sent(idle, Fail(10, "Invalid"), n)]
    else if r.value.kind == "MOVE" then
      [Sent(idle, Fail(31, "Impatient"), n), Sent(idle, Play(turn, BoardText(b)), n)]
    else []
  }

  /** What follows a message of the player on turn. */
  function ToActive(b: Board, turn: int, n: nat, r: Option<Received>, atoi: string -> int): seq<Sent> {
    if Breaks(r, true) then [Sent(turn, Fail(10, "Invalid"), n)]
    else match Asked(r, atoi)
      case None => []
      case Some((pile, amount)) =>
        if pile < 0 || pile >= |b| then
          [Sent(turn, Fail(32, "Pile Index"), n), Sent(turn, Play(turn, BoardText(b)), n)]
        else if amount < 1 || amount > b[pile] then
          [Sent(turn, Fail(33, "Quantity"), n), Sent(turn, Play(turn, BoardText(b)), n)]
        else
          var now := b[pile := b[pile] - amount];
          if amount == Stones(b) then []
          else [Sent(1, Play(Other(turn), BoardText(now)), n + 1), Sent(2, Play(Other(turn), BoardText(now)), n + 1)]
  }

  /** All that is sent in a turn; the player on turn is heard only if the idle one has neither
      left nor broken the protocol. */
  function Answers(b: Board, turn: int, n: nat, e: Poll, atoi: string -> int): seq<Sent> {
    var idle := e.Of(Other(turn));
    ToIdle(b, turn, n, idle)
    + if idle == Some(Closed) || Breaks(idle, false) then [] else ToActive(b, turn, n, e.Of(turn), atoi)
  }

  /** Which rejection goes to whom: 31 exactly for a MOVE of the idle player; 32 exactly when
      the player on turn is heard to name no pile; 33 exactly for an amount out of range; 10
      exactly for a broken protocol. */
  lemma RejectionsIff(b: Board, turn: int, n: nat, e: Poll, atoi: string -> int, to: int)
    requires 1 <= turn <= 2
    ensures var sent, idle := Answers(b, turn, n, e, atoi), e.Of(Other(turn));
            var heard := idle != Some(Closed) && !Breaks(idle, false);
            var asked := Asked(e.Of(turn), atoi);
            && (Sent(to, Fail(31, "Impatient"), n) in sent <==>
                  to == Other(turn) && idle.Some? && idle.value.Message? && idle.value.kind == "MOVE")
            && (Sent(to, Fail(32, "Pile Index"), n) in sent <==>
                  to == turn && heard && asked.Some? && !(0 <= asked.value.0 < |b|))
            && (Sent(to, Fail(33, "Quantity"), n) in sent <==>
                  to == turn && heard && asked.Some? && 0 <= asked.value.0 < |b| &&
                  !(1 <= asked.value.1 <= b[asked.value.0]))
            && (Sent(to, Fail(10, "Invalid"), n) in sent <==>
                  (to == Other(turn) && Breaks(idle, false)) || (to == turn && heard && Breaks(e.Of(turn), true)))
  {
    hide Asked, Breaks, ToIdle, ToActive;
    IdleRejections(b, turn, n, e.Of(Other(turn)), to);
    ActiveRejections(b, turn, n, e.Of(turn), atoi, to);
  }

  lemma IdleRejections(b: Board, turn: int, n: nat, r: Option<Received>, to: int)
    ensures var sent := ToIdle(b, turn, n, r);
            && (Sent(to, Fail(31, "Impatient"), n) in sent <==>
                  to == Other(turn) && r.Some? && r.value.Message? && r.value.kind == "MOVE")
            && Sent(to, Fail(32, "Pile Index"), n) !in sent && Sent(to, Fail(33, "Quantity"), n) !in sent
            && (Sent(to, Fail(10, "Invalid"), n) in sent <==> to == Other(turn) && Breaks(r, false))
  {
    hide BoardText;
  }

  lemma ActiveRejections(b: Board, turn: int, n: nat, r: Option<Received>, atoi: string -> int, to: int)
    ensures var sent, asked := ToActive(b, turn, n, r, atoi), Asked(r, atoi);
            && Sent(to, Fail(31, "Impatient"), n) !in sent
            && (Sent(to, Fail(32, "Pile Index"), n) in sent <==>
                  to == turn && asked.Some? && !(0 <= asked.value.0 < |b|))
            && (Sent(to, Fail(33, "Quantity"), n) in sent <==>
                  to == turn && asked.Some? && 0 <= asked.value.0 < |b| && !(1 <= asked.value.1 <= b[asked.value.0]))
            && (Sent(to, Fail(10, "Invalid"), n) in sent <==> to == turn && Breaks(r, true))
  {
    hide BoardText, Stones;
  }

  // ----- one turn of the loop -----

  lemma IdleTurn(g: Game, r: Option<Received>)
    requires Playing(g)
    ensures var h := IdlePart(g, r);
            && h.piles == g.piles && h.moves == g.moves && h.turn == g.turn && h.board == g.board
            && h.sent == g.sent + ToIdle(g.piles, g.turn, |g.moves|, r)
            && (h.over <==> r == Some(Closed) || Breaks(r, false))
  {
    hide BoardText, Stones;
  }

  lemma ActiveTurn(g: Game, r: Option<Received>, atoi: string -> int)
    requires g.board == BoardText(g.piles)
    ensures var h := ActivePart(g, r, atoi);
            && h.sent == g.sent + ToActive(g.piles, g.turn, |g.moves|, r, atoi)
            && h.moves == g.moves + MoveOf(g.piles, g.turn, r, atoi)
            && h.piles == BoardOf(g.piles, g.turn, r, atoi)
            && (!h.over ==> h.turn == if h.moves == g.moves then g.turn else Other(g.turn))
  {
    hide BoardText, Stones, MovePart;
    if Asked(r, atoi).Some? {
      MoveTurn(g, Asked(r, atoi).value.0, Asked(r, atoi).value.1);
    }
  }

  /** The move the player on turn asks for, if it is legal. */
  function MoveOf(b: Board, turn: int, r: Option<Received>, atoi: string -> int): seq<Move> {
    match Asked(r, atoi)
    case None => []
    case Some((pile, amount)) => if 0 <= pile < |b| && 1 <= amount <= b[pile] then [Move(turn, pile, amount)] else []
  }

  function BoardOf(b: Board, turn: int, r: Option<Received>, atoi: string -> int): Board {
    match Asked(r, atoi)
    case None => b
    case Some((pile, amount)) => if 0 <= pile < |b| && 1 <= amount <= b[pile] then b[pile := b[pile] - amount] else b
  }

  lemma MoveTurn(g: Game, pile: int, amount: int)
    requires g.board == BoardText(g.piles)
    ensures var h := MovePart(g, pile, amount);
            var legal := 0 <= pile < |g.piles| && 1 <= amount <= g.piles[pile];
            && h.moves == g.moves + (if legal then [Move(g.turn, pile, amount)] else [])
            && h.piles == (if legal then g.piles[pile := g.piles[pile] - amount] else g.piles)
            && (!h.over ==> h.turn == if legal then Other(g.turn) else g.turn)
            && h.sent == g.sent +
               (if pile < 0 || pile >= |g.piles| then
                  [Sent(g.turn, Fail(32, "Pile Index"), |g.moves|), Sent(g.turn, Play(g.turn, g.board), |g.moves|)]
                else if !legal then
                  [Sent(g.turn, Fail(33, "Quantity"), |g.moves|), Sent(g.turn, Play(g.turn, g.board), |g.moves|)]
                else if amount == Stones(g.piles) then []
                else
                  var play := Play(Other(g.turn), BoardText(g.piles[pile := g.piles[pile] - amount]));
                  [Sent(1, play, |g.moves| + 1), Sent(2, play, |g.moves| + 1)])
  {
    hide BoardText, Stones;
    if LegalMove(g.piles, pile, amount) {
      MoveTakesStones(g.piles, pile, amount);
    }
  }

  /** A turn of the loop makes exactly the move that is granted, and sends exactly the answers;
      the turn passes with a move, and with nothing else. */
  lemma TurnIs(g: Game, e: Poll, atoi: string -> int)
    requires Playing(g)
    ensures var h := Turn(g, e, atoi);
            && h.moves == g.moves + OneMove(g.piles, g.turn, e, atoi)
            && h.piles == Next(g.piles, g.turn, e, atoi)
            && h.sent == g.sent + Answers(g.piles, g.turn, |g.moves|, e, atoi)
            && (!h.over ==> h.turn == NextTurn(g.piles, g.turn, e, atoi))
            && (!h.over ==> h.board == BoardText(h.piles))
  {
    hide BoardText, Stones, IdlePart, ActivePart, ToIdle, ToActive, Asked;
    var idle := e.Of(Other(g.turn));
    var h := IdlePart(g, idle);
    IdleTurn(g, idle);
    if !h.over {
      ActiveTurn(h, e.Of(g.turn), atoi);
      BoardStays(h, e.Of(g.turn), atoi);
    }
  }

  lemma BoardStays(g: Game, r: Option<Received>, atoi: string -> int)
    requires g.board == BoardText(g.piles)
    ensures !ActivePart(g, r, atoi).over ==> ActivePart(g, r, atoi).board == BoardText(ActivePart(g, r, atoi).piles)
  {
    hide BoardText, Stones;
  }

  /** A legal request of the player on turn, once heard: exactly that pile loses exactly that
      many stones, the move is recorded, and unless no stones are left the other player is on
      turn and both are told. */
  lemma LegalRequest(g: Game, e: Poll, atoi: string -> int, pile: int, amount: int)
    requires Playing(g) && Heard(g, e, g.turn) && Asked(e.Of(g.turn), atoi) == Some((pile, amount))
    requires 0 <= pile < |g.piles| && 1 <= amount <= g.piles[pile]
    ensures var h := Turn(g, e, atoi);
            && h.moves == g.moves + [Move(g.turn, pile, amount)]
            && |h.piles| == |g.piles|
            && (forall i :: 0 <= i < |g.piles| ==> h.piles[i] == if i == pile then g.piles[i] - amount else g.piles[i])
            && (h.over <==> amount == Stones(g.piles))
            && (!h.over ==> h.turn == Other(g.turn) && ToldNow(h, Play(h.turn, BoardText(h.piles))))
  {
    hide BoardText, Stones, Turn, ToIdle;
    TurnIs(g, e, atoi);
    LegalEnds(g, e, atoi, pile, amount);
  }

  /** The last two messages tell both players the same, after all moves so far. */
  predicate ToldNow(g: Game, msg: Announcement) {
    |g.sent| >= 2 && g.sent[|g.sent| - 2..] == [Sent(1, msg, |g.moves|), Sent(2, msg, |g.moves|)]
  }

  lemma LegalEnds(g: Game, e: Poll, atoi: string -> int, pile: int, amount: int)
    requires Playing(g) && Heard(g, e, g.turn) && Asked(e.Of(g.turn), atoi) == Some((pile, amount))
    requires 0 <= pile < |g.piles| && 1 <= amount <= g.piles[pile]
    ensures Turn(g, e, atoi).over <==> amount == Stones(g.piles)
  {
    hide IdlePart, ActivePart, Stones, BoardText;
    var idle := e.Of(Other(g.turn));
    IdleEnds(g, idle);
    IdleTurn(g, idle);
    ActiveEnds(IdlePart(g, idle), e.Of(g.turn), atoi);
  }

  /** Nothing else changes the board: without a legal request that is heard, piles, moves, turn
      and board stay as they are. */
  lemma NoRequest(g: Game, e: Poll, atoi: string -> int)
    requires Playing(g)
    requires !(Heard(g, e, g.turn) && Asked(e.Of(g.turn), atoi).Some? &&
               var (pile, amount) := Asked(e.Of(g.turn), atoi).value;
               0 <= pile < |g.piles| && 1 <= amount <= g.piles[pile])
    ensures var h := Turn(g, e, atoi);
            && h.moves == g.moves && h.piles == g.piles
            && (!h.over ==> h.turn == g.turn && h.board == g.board)
  {
    hide BoardText, Stones, Turn, Asked, Answers;
    TurnIs(g, e, atoi);
  }

  // ----- whole games -----

  /** The turn ends the game. */
  predicate Stops(b: Board, turn: int, e: Poll, atoi: string -> int) {
    var idle, active := e.Of(Other(turn)), e.Of(turn);
    || idle == Some(Closed) || Breaks(idle, false) || active == Some(Closed) || Breaks(active, true)
    || (Granted(b, turn, e, atoi).Some? && Granted(b, turn, e, atoi).value.amount == Stones(b))
  }

  function NextTurn(b: Board, turn: int, e: Poll, atoi: string -> int): int {
    if Granted(b, turn, e, atoi).Some? then Other(turn) else turn
  }

  function OneMove(b: Board, turn: int, e: Poll, atoi: string -> int): seq<Move> {
    match Granted(b, turn, e, atoi)
    case None => []
    case Some(m) => [m]
  }

  /** The moves granted, turn by turn, up to the end of the game. */
  function Transcript(b: Board, turn: int, es: seq<Poll>, atoi: string -> int): seq<Move>
    decreases |es|
  {
    if es == [] then []
    else
      OneMove(b, turn, es[0], atoi)
      + if Stops(b, turn, es[0], atoi) then []
        else Transcript(Next(b, turn, es[0], atoi), NextTurn(b, turn, es[0], atoi), es[1..], atoi)
  }

  /** The messages sent from the `n`-th move on, turn by turn, up to the end of the game. */
  function Dialogue(b: Board, turn: int, n: nat, es: seq<Poll>, atoi: string -> int): seq<Sent>
    decreases |es|
  {
    if es == [] then []
    else
      Answers(b, turn, n, es[0], atoi)
      + if Stops(b, turn, es[0], atoi) then []
        else Dialogue(Next(b, turn, es[0], atoi), NextTurn(b, turn, es[0], atoi),
                      if Granted(b, turn, es[0], atoi).Some? then n + 1 else n, es[1..], atoi)
  }

  lemma StopsIff(g: Game, e: Poll, atoi: string -> int)
    requires Playing(g)
    ensures Turn(g, e, atoi).over <==> Stops(g.piles, g.turn, e, atoi)
  {
    hide IdlePart, ActivePart, Stones, BoardText;
    var idle := e.Of(Other(g.turn));
    IdleEnds(g, idle);
    IdleTurn(g, idle);
    if !IdlePart(g, idle).over {
      ActiveEnds(IdlePart(g, idle), e.Of(g.turn), atoi);
    }
  }

  /** The loop makes exactly the moves of the transcript and sends exactly the dialogue. */
  lemma {:induction false} LoopIs(g: Game, es: seq<Poll>, atoi: string -> int)
    requires Inv(g) && !g.over
    ensures Loop(g, es, atoi).moves == g.moves + Transcript(g.piles, g.turn, es, atoi)
    ensures Loop(g, es, atoi).sent == g.sent + Dialogue(g.piles, g.turn, |g.moves|, es, atoi)
    decreases |es|
  {
    if es == [] {
      NothingYet(g, atoi);
    } else {
      hide *;
      var h := Turn(g, es[0], atoi);
      InvPlaying(g);
      TurnIs(g, es[0], atoi);
      TurnInv(g, es[0], atoi);
      StopsIff(g, es[0], atoi);
      LoopHead(g, es, atoi);
      if h.over {
        OverEnds(h, es[1..], atoi);
        LastTurn(g, h, es, atoi);
      } else {
        LoopIs(h, es[1..], atoi);
        OneMoreTurn(g, h, es, atoi);
      }
    }
  }

  lemma {:induction false} LoopHead(g: Game, es: seq<Poll>, atoi: string -> int)
    requires es != [] && !g.over
    ensures Loop(g, es, atoi) == Loop(Turn(g, es[0], atoi), es[1..], atoi)
  {
    hide Turn;
  }

  lemma {:induction false} NothingYet(g: Game, atoi: string -> int)
    ensures Loop(g, [], atoi) == g
    ensures g.moves == g.moves + Transcript(g.piles, g.turn, [], atoi)
    ensures g.sent == g.sent + Dialogue(g.piles, g.turn, |g.moves|, [], atoi)
  {
  }

  lemma {:induction false} LastTurn(g: Game, h: Game, es: seq<Poll>, atoi: string -> int)
    requires es != [] && Stops(g.piles, g.turn, es[0], atoi)
    requires h.moves == g.moves + OneMove(g.piles, g.turn, es[0], atoi)
    requires h.sent == g.sent + Answers(g.piles, g.turn, |g.moves|, es[0], atoi)
    ensures h.moves == g.moves + Transcript(g.piles, g.turn, es, atoi)
    ensures h.sent == g.sent + Dialogue(g.piles, g.turn, |g.moves|, es, atoi)
  {
    hide Stops, Answers, Granted;
    var m, a := OneMove(g.piles, g.turn, es[0], atoi), Answers(g.piles, g.turn, |g.moves|, es[0], atoi);
    assert m + [] == m && a + [] == a;
  }

  lemma {:induction false} OneMoreTurn(g: Game, h: Game, es: seq<Poll>, atoi: string -> int)
    requires es != [] && !Stops(g.piles, g.turn, es[0], atoi)
    requires h.moves == g.moves + OneMove(g.piles, g.turn, es[0], atoi)
    requires h.sent == g.sent + Answers(g.piles, g.turn, |g.moves|, es[0], atoi)
    requires h.piles == Next(g.piles, g.turn, es[0], atoi) && h.turn == NextTurn(g.piles, g.turn, es[0], atoi)
    ensures h.moves + Transcript(h.piles, h.turn, es[1..], atoi) == g.moves + Transcript(g.piles, g.turn, es, atoi)
    ensures h.sent + Dialogue(h.piles, h.turn, |h.moves|, es[1..], atoi)
            == g.sent + Dialogue(g.piles, g.turn, |g.moves|, es, atoi)
  {
    hide Stops, Answers, Granted, Next, NextTurn;
    OneMoveLength(g.piles, g.turn, es[0], atoi);
    Regroup(g.moves, OneMove(g.piles, g.turn, es[0], atoi), Transcript(h.piles, h.turn, es[1..], atoi));
    Regroup(g.sent, Answers(g.piles, g.turn, |g.moves|, es[0], atoi),
            Dialogue(h.piles, h.turn, |h.moves|, es[1..], atoi));
  }

  lemma OneMoveLength(b: Board, turn: int, e: Poll, atoi: string -> int)
    ensures |OneMove(b, turn, e, atoi)| == if Granted(b, turn, e, atoi).Some? then 1 else 0
  {
  }

  lemma Regroup<T>(a: seq<T>, b: seq<T>, c: seq<T>)
    ensures a + b + c == a + (b + c)
  {
  }

  /** The opening: the piles, the turn, and the four messages, with each player's number and
      the name of the other. */
  lemma OpeningIs(name1: string, name2: string)
    ensures var g := Opening(name1, name2); var p := Play(1, "1 3 5 7 9");
            && g.piles == [1, 3, 5, 7, 9] && g.turn == 1 && g.moves == [] && !g.over && g.winner == 0 && g.reason == ""
            && g.sent == [Sent(1, Name(1, name2), 0), Sent(2, Name(2, name1), 0), Sent(1, p, 0), Sent(2, p, 0)]
  {
    hide BoardText;
    OpeningText();
  }

  lemma OpeningText()
    ensures BoardText(OPENING) == "1 3 5 7 9"
  {
    hide BoardText, Decimal;
    FiveText(OPENING);
    OneDigit();
  }

  lemma OneDigit()
    ensures Decimal(1) == "1" && Decimal(3) == "3" && Decimal(5) == "5" && Decimal(7) == "7" && Decimal(9) == "9"
  {
  }
}
