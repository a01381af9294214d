/** game_thread of nimd.c: the loop that polls both players, referees their messages and
    announces the result. */
module NimGame {
  import opened Options
  import opened CText
  import opened NimBoard
  import opened NimWire

  const OPENING: Board := [1, 3, 5, 7, 9]

  /** One return of poll: for each player, whether it is ready and what receive_msg yields. */
  datatype Poll = Poll(first: Option<Received>, second: Option<Received>) {
    function Of(player: int): Option<Received> {
      if player == 1 then first else second
    }
  }

  datatype Announcement =
    | Name(id: int, opponent: string)
    | Play(turn: int, board: string)
    | Fail(code: int, text: string)
    | Over(winner: int, board: string, reason: string)

  /** A message as sent: to which player, and after how many accepted moves. */
  datatype Sent = Sent(to: int, msg: Announcement, after: nat)

  datatype Move = Move(player: int, pile: int, amount: int)

  /** The variables of the loop, with the messages sent and the moves accepted so far. */
  datatype Game = Game(
    piles: Board, turn: int, board: string, over: bool, winner: int, reason: string,
    sent: seq<Sent>, moves: seq<Move>) {

    function Send(to: int, msg: Announcement): Game {
      this.(sent := sent + [Sent(to, msg, |moves|)])
    }

    function SendBoth(msg: Announcement): Game {
      Send(1, msg).Send(2, msg)
    }
  }

  function Other(player: int): int {
    if player == 1 then 2 else 1
  }

  /** `%d %d %d %d %d`, for boards of any size. */
  function BoardText(b: Board): string {
    if b == [] then ""
    else if |b| == 1 then Decimal(b[0])
    else Decimal(b[0]) + " " + BoardText(b[1..])
  }

  // ----- one turn of the loop, as a function -----

  function Opening(name1: string, name2: string): Game {
    Game(OPENING, 1, BoardText(OPENING), false, 0, "", [], [])
    .Send(1, Name(1, name2)).Send(2, Name(2, name1))
    .SendBoth(Play(1, BoardText(OPENING)))
  }

  /** The idle player's message: MOVE earns FAIL 31 and a reminder, anything else nothing. */
  function IdlePart(g: Game, r: Option<Received>): Game {
    var idle := Other(g.turn);
    match r
    case None => g
    case Some(Closed) => g.(over := true, winner := g.turn, reason := "Forfeit")
    case Some(Invalid) => g.Send(idle, Fail(10, "Invalid")).(over := true)
    case Some(Message(kind, body)) =>
      if kind == "MOVE" then g.Send(idle, Fail(31, "Impatient")).Send(idle, Play(g.turn, g.board))
      else g
  }

  /** The active player's message. */
  function ActivePart(g: Game, r: Option<Received>, atoi: string -> int): Game {
    match r
    case None => g
    case Some(Closed) =>
      g.(over := true, winner := Other(g.turn), reason := "Forfeit")
    case Some(Invalid) => g.Send(g.turn, Fail(10, "Invalid")).(over := true)
    case Some(Message(kind, body)) =>
      if kind != "MOVE" then g
      else match Find(body, '|')
        case None => g.Send(g.turn, Fail(10, "Invalid")).(over := true)
        case Some(i) => MovePart(g, atoi(body[..i]), atoi(body[i + 1..]))
  }

  /** A MOVE of the active player. */
  function MovePart(g: Game, pile: int, amount: int): Game {
    if pile < 0 || |g.piles| <= pile then
      g.Send(g.turn, Fail(32, "Pile Index")).Send(g.turn, Play(g.turn, g.board))
    else if !LegalMove(g.piles, pile, amount) then
      g.Send(g.turn, Fail(33, "Quantity")).Send(g.turn, Play(g.turn, g.board))
    else
      var b := AfterMove(g.piles, pile, amount);
      var h := g.(piles := b, moves := g.moves + [Move(g.turn, pile, amount)]);
      if Stones(b) == 0 then h.(over := true, winner := g.turn, reason := "")
      else h.(turn := Other(g.turn), board := BoardText(b)).SendBoth(Play(Other(g.turn), BoardText(b)))
  }

  function Turn(g: Game, e: Poll, atoi: string -> int): Game {
    var h := IdlePart(g, e.Of(Other(g.turn)));
    if h.over then h else ActivePart(h, e.Of(g.turn), atoi)
  }

  /** The loop over a sequence of returns of poll, up to the first break. */
  function Loop(g: Game, es: seq<Poll>, atoi: string -> int): Game
    decreases |es|
  {
    if g.over || es == [] then g else Loop(Turn(g, es[0], atoi), es[1..], atoi)
  }

  /** What follows the loop: OVER to both players, if there is a winner. */
  function Closing(g: Game): Game {
    var h := g.(board := BoardText(g.piles));
    if !g.over || g.winner == 0 then h else h.SendBoth(Over(g.winner, h.board, g.reason))
  }

  // ----- the thread -----

  /** The game and the local variables of game_thread. `sent` and `moves` are the transcript
      of the game: messages written to the sockets, and moves accepted. */
  class GameThread {
    const name1: string
    const name2: string
    const piles: array<nat>
    var turn: int
    var board: string
    var over: bool
    var winner: int
    var reason: string
    var sent: seq<Sent>
    var moves: seq<Move>

    ghost function State(): Game
      reads this, piles
    {
      Game(piles[..], turn, board, over, winner, reason, sent, moves)
    }

    constructor (name1: string, name2: string)
      ensures fresh(piles) && piles.Length == 5
      ensures this.name1 == name1 && this.name2 == name2
      ensures State() == Game(piles[..], 0, "", false, 0, "", [], [])
    {
      this.name1, this.name2 := name1, name2;
      piles := new nat[5];
      turn, board, over, winner, reason := 0, "", false, 0, "";
      sent, moves := [], [];
    }

    method Send(to: int, msg: Announcement)
      modifies this`sent
      ensures State() == old(State()).Send(to, msg)
    {
      sent := sent + [Sent(to, msg, |moves|)];
    }

    method SendBoth(msg: Announcement)
      modifies this`sent
      ensures State() == old(State()).SendBoth(msg)
    {
      Send(1, msg);
      Send(2, msg);
    }

    method FormatBoard() returns (text: string)
      requires piles.Length == 5
      ensures text == BoardText(piles[..])
    {
      text := Decimal(piles[0]) + " " + Decimal(piles[1]) + " " + Decimal(piles[2]) + " "
        + Decimal(piles[3]) + " " + Decimal(piles[4]);
      FiveText(piles[..]);
    }

    /** The message of the player whose turn it is not; `r` is what receive_msg yields. */
    method CheckIdle(r: Received)
      requires !over
      modifies this
      ensures State() == IdlePart(old(State()), Some(r))
    {
      var idle := if turn == 1 then 2 else 1;
      match r
      case Closed =>
        winner, reason := turn, "Forfeit";
        over := true;
      case Invalid =>
        Send(idle, Fail(10, "Invalid"));
        over := true;
      case Message(kind, body) =>
        if kind == "MOVE" {
          Send(idle, Fail(31, "Impatient"));
          Send(idle, Play(turn, board));
        }
    }

    /** The message of the player whose turn it is. */
    method CheckActive(r: Received, atoi: string -> int)
      requires !over && piles.Length == 5
      modifies this, piles
      ensures State() == ActivePart(old(State()), Some(r), atoi)
    {
      if r.Closed? {
        winner, reason := if turn == 1 then 2 else 1, "Forfeit";
        over := true;
        return;
      }
      if r.Invalid? {
        Send(turn, Fail(10, "Invalid"));
        over := true;
        return;
      }
      if r.kind != "MOVE" {
        return;
      }
      var bar := Find(r.body, '|');
      if bar.None? {
        Send(turn, Fail(10, "Invalid"));
        over := true;
        return;
      }
      MakeMove(atoi(r.body[..bar.value]), atoi(r.body[bar.value + 1..]));
    }

    method MakeMove(pile_idx: int, amount: int)
      requires !over && piles.Length == 5
      modifies this, piles
      ensures State() == MovePart(old(State()), pile_idx, amount)
    {
      if pile_idx < 0 || pile_idx > 4 {
        Send(turn, Fail(32, "Pile Index"));
        Send(turn, Play(turn, board));
        return;
      }
      if amount < 1 || amount > piles[pile_idx] {
        Send(turn, Fail(33, "Quantity"));
        Send(turn, Play(turn, board));
        return;
      }
      ghost var b := AfterMove(piles[..], pile_idx, amount);
      piles[pile_idx] := piles[pile_idx] - amount;
      assert piles[..] == b;
      moves := moves + [Move(turn, pile_idx, amount)];
      var stones := CountStones();
      if stones == 0 {
        winner, reason := turn, "";
        over := true;
        return;
      }
      turn := if turn == 1 then 2 else 1;
      board := FormatBoard();
      SendBoth(Play(turn, board));
    }

    method CountStones() returns (stones: nat)
      ensures stones == Stones(piles[..])
    {
      stones := 0;
      for i := 0 to piles.Length
        invariant Stones(piles[..]) == stones + Stones(piles[i..])
      {
        assert piles[i..][1..] == piles[i + 1..];
        stones := stones + piles[i];
      }
    }

    /** game_thread over the given returns of poll; when they run out before the game is
        over, the thread is still waiting in poll. */
    method Run(events: seq<Poll>, atoi: string -> int)
      requires piles.Length == 5 && State() == Game(piles[..], 0, "", false, 0, "", [], [])
      modifies this, piles
      ensures var g := Loop(Opening(name1, name2), events, atoi);
              State() == if g.over then Closing(g) else g
    {
      hide Opening, IdlePart, ActivePart, Closing, Game.Send, Game.SendBoth;
      Open();
      var n := 0;
      assert events[0..] == events;
      while n < |events| && !over
        invariant n <= |events| && piles.Length == 5
        invariant Loop(Opening(name1, name2), events, atoi) == Loop(State(), events[n..], atoi)
        decreases |events| - n
      {
        var e := events[n];
        LoopStep(State(), events, n, atoi);
        n := n + 1;
        var active := turn;
        var idle := if turn == 1 then 2 else 1;
        if e.Of(idle).Some? {
          CheckIdle(e.Of(idle).value);
        }
        if !over && e.Of(active).Some? {
          CheckActive(e.Of(active).value, atoi);
        }
      }
      if over {
        Close();
      }
    }

    /** The messages before the loop. */
    method Open()
      requires piles.Length == 5 && State() == Game(piles[..], 0, "", false, 0, "", [], [])
      modifies this, piles
      ensures State() == Opening(name1, name2)
    {
      hide BoardText;
      Send(1, Name(1, name2));
      Send(2, Name(2, name1));
      ghost var hello := sent;
      piles[0], piles[1], piles[2], piles[3], piles[4] := 1, 3, 5, 7, 9;
      assert piles[..] == OPENING;
      turn := 1;
      board := FormatBoard();
      assert State() == Game(OPENING, 1, BoardText(OPENING), false, 0, "", hello, []);
      SendBoth(Play(turn, board));
    }

    /** What follows the loop. */
    method Close()
      requires piles.Length == 5 && over
      modifies this
      ensures State() == Closing(old(State()))
    {
      board := FormatBoard();
      if winner != 0 {
        SendBoth(Over(winner, board, reason));
      }
    }
  }

  lemma {:induction false} FiveText(b: Board)
    requires |b| == 5
    ensures BoardText(b) == Decimal(b[0]) + " " + Decimal(b[1]) + " " + Decimal(b[2]) + " "
                            + Decimal(b[3]) + " " + Decimal(b[4])
  {
    assert BoardText(b[4..]) == Decimal(b[4]);
    assert b[3..][1..] == b[4..] && b[2..][1..] == b[3..] && b[1..][1..] == b[2..];
    assert BoardText(b[3..]) == Decimal(b[3]) + " " + BoardText(b[4..]);
    assert BoardText(b[2..]) == Decimal(b[2]) + " " + BoardText(b[3..]);
    assert BoardText(b[1..]) == Decimal(b[1]) + " " + BoardText(b[2..]);
  }

  lemma {:induction false} LoopStep(g: Game, es: seq<Poll>, n: nat, atoi: string -> int)
    requires n < |es| && !g.over
    ensures Loop(g, es[n..], atoi) == Loop(Turn(g, es[n], atoi), es[n + 1..], atoi)
    ensures var e := es[n]; var h := IdlePart(g, e.Of(Other(g.turn)));
            Turn(g, e, atoi) == if h.over then h else ActivePart(h, e.Of(g.turn), atoi)
    ensures IdlePart(g, None) == g
    ensures forall h: Game {:trigger ActivePart(h, None, atoi)} :: ActivePart(h, None, atoi) == h
  {
    assert es[n..][1..] == es[n + 1..];
  }
}
