/** How the games of nimd.c end: the input that ends a game, and the winner it makes. */
module NimOutcome {
  import opened Options
  import opened CText
  import opened NimBoard
  import opened NimWire
  import opened NimGame
  import opened NimGameTheorems

  // ----- the messages that end a game -----

  /** Why a game ends: a player's connection is found closed, a player breaks the protocol, or
      a player takes the last stone. */
  datatype Cause = LeftBy(player: int) | ErrorBy(player: int) | LastStoneOf(player: int)

  /** The winner each cause makes; 0 is nobody. */
  function WinnerBy(c: Cause): int {
    match c
    case LeftBy(p) => if p == 1 then 2 else 1
    case ErrorBy(p) => 0
    case LastStoneOf(p) => p
  }

  /** An unreadable message; from the player on turn also a MOVE without a second argument. */
  predicate Breaks(r: Option<Received>, onTurn: bool) {
    r.Some? && (r.value.Invalid? || (onTurn && r.value.Message? && r.value.kind == "MOVE" && '|' !in r.value.body))
  }

  /** A MOVE that takes every stone there is. */
  predicate TakesLast(b: Board, r: Option<Received>, atoi: string -> int) {
    && r.Some? && r.value.Message? && r.value.kind == "MOVE"
    && Find(r.value.body, '|').Some?
    && var i := Find(r.value.body, '|').value;
    && LegalMove(b, atoi(r.value.body[..i]), atoi(r.value.body[i + 1..]))
    && atoi(r.value.body[i + 1..]) == Stones(b)
  }

  /** The message of player `p` is read in this turn of the loop: the idle player's is read
      first, and the other one only if that did not end the game. */
  predicate Heard(g: Game, e: Poll, p: int) {
    var idle := e.Of(Other(g.turn));
    p == Other(g.turn) || (p == g.turn && idle != Some(Closed) && !Breaks(idle, false))
  }

  /** The return `e` of poll ends the game `g` for the reason `c`. */
  predicate EndsBy(g: Game, e: Poll, atoi: string -> int, c: Cause) {
    && Heard(g, e, c.player)
    && match c
       case LeftBy(p) => e.Of(p) == Some(Closed)
       case ErrorBy(p) => Breaks(e.Of(p), p == g.turn)
       case LastStoneOf(p) => p == g.turn && TakesLast(g.piles, e.Of(p), atoi)
  }

  // ----- one turn of the loop -----

  lemma IdleEnds(g: Game, r: Option<Received>)
    requires !g.over && g.winner == 0 && g.reason == ""
    ensures IdlePart(g, r).over <==> r == Some(Closed) || Breaks(r, false)
    ensures r == Some(Closed) ==> IdlePart(g, r).winner == g.turn
    ensures Breaks(r, false) ==> IdlePart(g, r).winner == 0
    ensures IdlePart(g, r).piles == g.piles && IdlePart(g, r).moves == g.moves && IdlePart(g, r).turn == g.turn
    ensures !IdlePart(g, r).over ==> IdlePart(g, r).winner == 0
    ensures IdlePart(g, r).reason == if r == Some(Closed) then "Forfeit" else ""
  {
  }

  lemma ActiveEnds(g: Game, r: Option<Received>, atoi: string -> int)
    requires !g.over && g.winner == 0 && g.reason == ""
    ensures ActivePart(g, r, atoi).over <==> r == Some(Closed) || Breaks(r, true) || TakesLast(g.piles, r, atoi)
    ensures r == Some(Closed) ==> ActivePart(g, r, atoi).winner == Other(g.turn)
    ensures Breaks(r, true) ==> ActivePart(g, r, atoi).winner == 0
    ensures TakesLast(g.piles, r, atoi) ==> TookLast(ActivePart(g, r, atoi), g.turn)
    ensures ActivePart(g, r, atoi).reason == if r == Some(Closed) then "Forfeit" else ""
  {
    hide BoardText, MovePart, LegalMove;
    if r.Some? && r.value.Message? && r.value.kind == "MOVE" && Find(r.value.body, '|').Some? {
      var i := Find(r.value.body, '|').value;
      MoveEnds(g, atoi(r.value.body[..i]), atoi(r.value.body[i + 1..]));
    }
  }

  /** Player `p` has made the last move, and has won by it. */
  predicate TookLast(g: Game, p: int) {
    g.winner == p && g.moves != [] && g.moves[|g.moves| - 1].player == p && Stones(g.piles) == 0
  }

  lemma MoveEnds(g: Game, pile: int, amount: int)
    requires !g.over && g.winner == 0 && g.reason == ""
    ensures MovePart(g, pile, amount).reason == ""
    ensures MovePart(g, pile, amount).over <==> LegalMove(g.piles, pile, amount) && amount == Stones(g.piles)
    ensures MovePart(g, pile, amount).over ==> TookLast(MovePart(g, pile, amount), g.turn)
  {
    hide BoardText, Stones;
    if LegalMove(g.piles, pile, amount) {
      MoveTakesStones(g.piles, pile, amount);
    }
  }

  lemma TurnEnds(g: Game, e: Poll, atoi: string -> int)
    requires Playing(g)
    ensures Turn(g, e, atoi).over <==> exists c :: EndsBy(g, e, atoi, c)
    ensures forall c :: EndsBy(g, e, atoi, c) ==> EndedBy(Turn(g, e, atoi), c)
  {
    hide IdlePart, ActivePart, BoardText, Stones, TakesLast;
    var idle := Other(g.turn);
    var h := IdlePart(g, e.Of(idle));
    IdleEnds(g, e.Of(idle));
    if h.over {
      assert EndsBy(g, e, atoi, if e.Of(idle) == Some(Closed) then LeftBy(idle) else ErrorBy(idle));
    } else {
      ActiveEnds(h, e.Of(g.turn), atoi);
      if e.Of(g.turn) == Some(Closed) {
        assert EndsBy(g, e, atoi, LeftBy(g.turn));
      } else if Breaks(e.Of(g.turn), true) {
        assert EndsBy(g, e, atoi, ErrorBy(g.turn));
      } else if TakesLast(g.piles, e.Of(g.turn), atoi) {
        assert EndsBy(g, e, atoi, LastStoneOf(g.turn));
      }
    }
    forall c | EndsBy(g, e, atoi, c) ensures EndedBy(Turn(g, e, atoi), c) {
      assert c.player == g.turn || c.player == idle;
    }
  }

  /** The game is over with the winner and the reason of this cause. */
  predicate EndedBy(g: Game, c: Cause) {
    && g.over && 1 <= c.player <= 2 && g.winner == WinnerBy(c)
    && g.reason == (if c.LeftBy? then "Forfeit" else "")
    && (c.LastStoneOf? ==> TookLast(g, c.player))
  }

  // ----- every run -----

  /** The `n`-th return of poll ends the game that began with `g`, for the reason `c`. */
  predicate EndsAt(g: Game, es: seq<Poll>, atoi: string -> int, n: nat, c: Cause) {
    n < |es| && !Loop(g, es[..n], atoi).over && EndsBy(Loop(g, es[..n], atoi), es[n], atoi, c)
  }

  lemma EndsNow(g: Game, es: seq<Poll>, atoi: string -> int, c: Cause)
    requires es != [] && !g.over
    ensures EndsAt(g, es, atoi, 0, c) <==> EndsBy(g, es[0], atoi, c)
  {
    assert es[..0] == [];
  }

  lemma EndsLater(g: Game, es: seq<Poll>, atoi: string -> int, n: nat, c: Cause)
    requires es != [] && !g.over && n > 0
    ensures EndsAt(g, es, atoi, n, c) <==> EndsAt(Turn(g, es[0], atoi), es[1..], atoi, n - 1, c)
  {
    hide EndsBy, Turn;
    if n < |es| {
      assert es[..n][1..] == es[1..][..n - 1];
    }
  }

  lemma {:induction false} LoopEnds(g: Game, es: seq<Poll>, atoi: string -> int)
    requires Inv(g) && !g.over
    ensures Loop(g, es, atoi).over <==> exists n, c :: EndsAt(g, es, atoi, n, c)
    ensures forall n, c :: EndsAt(g, es, atoi, n, c) ==> EndedBy(Loop(g, es, atoi), c)
    decreases |es|
  {
    if es != [] {
      hide Inv, EndsAt, EndsBy, EndedBy, Turn, Playing;
      var h := Turn(g, es[0], atoi);
      InvPlaying(g);
      TurnEnds(g, es[0], atoi);
      TurnInv(g, es[0], atoi);
      forall c ensures EndsAt(g, es, atoi, 0, c) <==> EndsBy(g, es[0], atoi, c) {
        EndsNow(g, es, atoi, c);
      }
      forall n: nat, c | n > 0 ensures EndsAt(g, es, atoi, n, c) <==> EndsAt(h, es[1..], atoi, n - 1, c) {
        EndsLater(g, es, atoi, n, c);
      }
      if h.over {
        OverEnds(h, es[1..], atoi);
      } else {
        LoopEnds(h, es[1..], atoi);
        if n: nat, c :| EndsAt(h, es[1..], atoi, n, c) {
          assert EndsAt(g, es, atoi, n + 1, c);
        }
      }
    }
  }

  lemma InvPlaying(g: Game)
    requires Inv(g) && !g.over
    ensures Playing(g)
  {
  }

  /** A game that is over stays as it is, and does not end again. */
  lemma {:induction false} OverEnds(g: Game, es: seq<Poll>, atoi: string -> int)
    requires g.over
    ensures Loop(g, es, atoi) == g
    ensures forall n: nat, c :: !EndsAt(g, es, atoi, n, c)
  {
    hide EndsBy;
  }

  /** A game is over exactly when some return of poll has ended it, and the winner follows
      from that input: the opponent of the player found gone, nobody after a broken protocol,
      and otherwise whoever took the last stone. */
  lemma {:induction false} GameEndsIff(name1: string, name2: string, es: seq<Poll>, atoi: string -> int)
    ensures var g := Loop(Opening(name1, name2), es, atoi);
            && (g.over <==> exists n, c :: EndsAt(Opening(name1, name2), es, atoi, n, c))
            && (forall n, c :: EndsAt(Opening(name1, name2), es, atoi, n, c) ==> EndedBy(g, c))
            && (!g.over ==> g.winner == 0)
  {
    OpeningOn(name1, name2);
    hide *;
    OpeningInv(name1, name2);
    LoopEnds(Opening(name1, name2), es, atoi);
    LoopInv(Opening(name1, name2), es, atoi);
    NoWinnerYet(Loop(Opening(name1, name2), es, atoi));
  }

  lemma OpeningOn(name1: string, name2: string)
    ensures !Opening(name1, name2).over
  {
    hide BoardText;
  }

  lemma NoWinnerYet(g: Game)
    requires Inv(g)
    ensures !g.over ==> g.winner == 0
  {
  }
}
