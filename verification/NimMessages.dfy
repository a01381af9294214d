/** The messages of a game as payloads on the wire: every one fits a frame, and each client
    receives what it was sent. */
module NimMessages {
  import opened Options
  import opened CText
  import opened NimBoard
  import opened NimWire
  import opened NimGame
  import opened NimGameTheorems
  import opened NimOutcome
  import Lobby = NimLobby

  // ----- formatting -----

  /** `%d`. */
  function IntText(n: int): string {
    if n < 0 then "-" + Decimal(-n) else Decimal(n)
  }

  function Kind(m: Announcement): string {
    match m
    case Name(id, opponent) => "NAME"
    case Play(turn, board) => "PLAY"
    case Fail(code, text) => "FAIL"
    case Over(winner, board, reason) => "OVER"
  }

  function Body(m: Announcement): string {
    match m
    case Name(id, opponent) => IntText(id) + "|" + opponent
    case Play(turn, board) => IntText(turn) + "|" + board
    case Fail(code, text) => IntText(code) + " " + text
    case Over(winner, board, reason) => IntText(winner) + "|" + board + "|" + reason
  }

  /** What send_msg formats. */
  function Payload(m: Announcement): string {
    Kind(m) + "|" + Body(m)
  }

  // ----- reading a message -----

  /** `%d` read back. */
  function IntOf(s: string): Option<int> {
    if s != "" && AllDigits(s) then
      var v: int := ValueOf(s);
      Some(v)
    else if |s| > 1 && s[0] == '-' && AllDigits(s[1..]) then
      var v: int := ValueOf(s[1..]);
      Some(-v)
    else None
  }

  lemma IntTextMeans(n: int)
    ensures IntOf(IntText(n)) == Some(n)
    ensures '|' !in IntText(n) && ' ' !in IntText(n)
  {
    hide Decimal, ValueOf;
    if n < 0 {
      DecimalMeans(-n);
      MinusMeans(Decimal(-n));
    } else {
      DecimalMeans(n);
      DigitsOnly(Decimal(n));
    }
  }

  lemma {:induction false} MinusMeans(d: string)
    requires d != "" && AllDigits(d)
    ensures var s, v: int := "-" + d, ValueOf(d); IntOf(s) == Some(-v) && '|' !in s && ' ' !in s
  {
    hide ValueOf, AllDigits;
    var s := "-" + d;
    assert s[1..] == d && s[0] == '-';
    NotAllDigits(s);
    DigitsOnly(d);
  }

  lemma NotAllDigits(s: string)
    requires s != "" && !IsDigit(s[0])
    ensures !AllDigits(s)
  {
    assert s[0] in s;
  }

  lemma DigitsOnly(s: string)
    requires AllDigits(s)
    ensures '|' !in s && ' ' !in s
  {
  }

  /** The number before the first `sep`, and the text behind it. */
  function NumberThen(s: string, sep: char): Option<(int, string)> {
    match Find(s, sep)
    case None => None
    case Some(i) => match IntOf(s[..i])
      case None => None
      case Some(n) => Some((n, s[i + 1..]))
  }

  lemma NumberRead(n: int, sep: char, rest: string)
    requires sep == '|' || sep == ' '
    ensures NumberThen(IntText(n) + [sep] + rest, sep) == Some((n, rest))
  {
    hide IntText, IntOf, Find;
    IntTextMeans(n);
    var s, k := IntText(n) + [sep] + rest, |IntText(n)|;
    assert s[..k] == IntText(n) && s[k] == sep && s[k + 1..] == rest;
    FindIs(s, sep, k);
  }

  /** A message as a client reads its type and body. */
  function Understood(kind: string, body: string): Option<Announcement> {
    if kind == "NAME" then
      match NumberThen(body, '|') case None => None case Some((id, opponent)) => Some(Name(id, opponent))
    else if kind == "PLAY" then
      match NumberThen(body, '|') case None => None case Some((turn, board)) => Some(Play(turn, board))
    else if kind == "FAIL" then
      match NumberThen(body, ' ') case None => None case Some((code, text)) => Some(Fail(code, text))
    else if kind == "OVER" then
      match NumberThen(body, '|')
      case None => None
      case Some((winner, more)) => match Find(more, '|')
        case None => None
        case Some(i) => Some(Over(winner, more[..i], more[i + 1..]))
    else None
  }

  /** What a client reads is what was said. */
  lemma MessageUnderstood(m: Announcement)
    requires m.Over? ==> '|' !in m.board
    ensures Understood(Kind(m), Body(m)) == Some(m)
  {
    hide IntText, NumberThen, Find;
    match m
    case Name(id, opponent) => NumberRead(id, '|', opponent);
    case Play(turn, board) => NumberRead(turn, '|', board);
    case Fail(code, text) => NumberRead(code, ' ', text);
    case Over(winner, board, reason) =>
      var more := board + "|" + reason;
      assert Body(m) == IntText(winner) + "|" + more;
      NumberRead(winner, '|', more);
      assert more[..|board|] == board && more[|board| + 1..] == reason;
      FindIs(more, '|', |board|);
  }

  /** The text of a board has no bar. */
  lemma {:induction false} BoardHasNoBar(b: Board)
    ensures '|' !in BoardText(b)
  {
    hide Decimal;
    if |b| == 1 {
      DecimalMeans(b[0]);
    } else if b != [] {
      DecimalMeans(b[0]);
      BoardHasNoBar(b[1..]);
    }
  }

  // ----- one message -----

  /** The payload fits a frame. */
  predicate Fits(m: Announcement) {
    NUL !in Payload(m) && |Payload(m)| <= 98
  }

  /** The first bar of a payload is the one behind its type. */
  lemma SplitPayload(m: Announcement)
    ensures Split(Payload(m)) == Message(Kind(m), Body(m))
  {
    var k, p := Kind(m), Payload(m);
    assert p[..4] == k && p[4] == '|' && p[5..] == Body(m);
    hide Find, Body, Payload;
    FindIs(p, '|', 4);
  }

  lemma {:induction false} ShortBoard(b: Board)
    requires forall i :: 0 <= i < |b| ==> b[i] <= 9
    ensures |BoardText(b)| <= 2 * |b| && NUL !in BoardText(b)
  {
    if |b| > 1 {
      ShortBoard(b[1..]);
    }
  }

  /** A message as it occurs in a game between players of these names. */
  predicate Shaped(m: Announcement, name1: string, name2: string) {
    match m
    case Name(id, opponent) => 1 <= id <= 2 && (opponent == name1 || opponent == name2)
    case Play(turn, board) => true
    case Fail(code, text) =>
      (code, text) in {(10, "Invalid"), (31, "Impatient"), (32, "Pile Index"), (33, "Quantity")}
    case Over(winner, board, reason) => 1 <= winner <= 2 && (reason == "" || reason == "Forfeit")
  }

  lemma ShortNumbers()
    ensures IntText(1) == "1" && IntText(2) == "2"
    ensures IntText(10) == "10" && IntText(31) == "31" && IntText(32) == "32" && IntText(33) == "33"
  {
  }

  lemma NameFits(id: int, name: string)
    requires 1 <= id <= 2 && NUL !in name && |name| <= 72
    ensures Fits(Name(id, name))
  {
    hide IntText;
    ShortNumbers();
  }

  lemma PlayFits(turn: int, board: string)
    requires 1 <= turn <= 2 && NUL !in board && |board| <= 10
    ensures Fits(Play(turn, board))
  {
    hide IntText;
    ShortNumbers();
  }

  lemma FailFits(code: int, text: string)
    requires code in {10, 31, 32, 33} && NUL !in text && |text| <= 10
    ensures Fits(Fail(code, text))
  {
    hide IntText;
    ShortNumbers();
  }

  lemma ShortTexts(text: string)
    requires text == "Invalid" || text == "Impatient" || text == "Pile Index" || text == "Quantity"
    ensures NUL !in text && |text| <= 10
  {
  }

  lemma OverFits(winner: int, board: string, reason: string)
    requires 1 <= winner <= 2 && NUL !in board && |board| <= 10 && (reason == "" || reason == "Forfeit")
    ensures Fits(Over(winner, board, reason))
  {
    hide IntText;
    ShortNumbers();
  }

  /** The text of the board after any legal moves. */
  lemma {:induction false} BoardFits(ms: seq<Move>)
    requires Legit(ms)
    ensures |BoardText(BoardAfter(ms))| <= 10 && NUL !in BoardText(BoardAfter(ms))
  {
    hide BoardText, Legit, BoardAfter, Stones;
    Conservation(ms);
    OpeningIsShort();
    ShortBoard(BoardAfter(ms));
  }

  lemma {:induction false} ShapedFits(m: Announcement, name1: string, name2: string, ms: seq<Move>, s: Sent)
    requires NUL !in name1 && NUL !in name2 && |name1| <= 72 && |name2| <= 72
    requires Shaped(m, name1, name2) && Legit(ms) && s.msg == m && Current(ms, s)
    ensures Fits(m)
  {
    hide Fits, BoardText, Legit, BoardAfter;
    BoardFits(ms[..s.after]);
    match m
    case Name(id, opponent) => NameFits(id, opponent);
    case Play(turn, board) => PlayFits(turn, board);
    case Fail(code, text) =>
      ShortTexts(text);
      FailFits(code, text);
    case Over(winner, board, reason) => OverFits(winner, board, reason);
  }

  lemma OpeningIsShort()
    ensures |OPENING| == 5 && forall i :: 0 <= i < 5 ==> OPENING[i] <= 9
  {
  }

  // ----- every run -----

  ghost predicate AllShaped(g: Game, name1: string, name2: string) {
    && (g.reason == "" || g.reason == "Forfeit")
    && forall i :: 0 <= i < |g.sent| ==> Shaped(g.sent[i].msg, name1, name2)
  }

  lemma SendShaped(g: Game, to: int, m: Announcement, name1: string, name2: string)
    requires AllShaped(g, name1, name2) && Shaped(m, name1, name2)
    ensures AllShaped(g.Send(to, m), name1, name2)
  {
  }

  lemma OpeningShaped(name1: string, name2: string)
    ensures AllShaped(Opening(name1, name2), name1, name2)
  {
    hide BoardText;
  }

  lemma IdleShaped(g: Game, r: Option<Received>, name1: string, name2: string)
    requires AllShaped(g, name1, name2)
    ensures AllShaped(IdlePart(g, r), name1, name2)
  {
    hide BoardText;
    var idle := Other(g.turn);
    SendShaped(g, idle, Fail(10, "Invalid"), name1, name2);
    SendShaped(g, idle, Fail(31, "Impatient"), name1, name2);
    SendShaped(g.Send(idle, Fail(31, "Impatient")), idle, Play(g.turn, g.board), name1, name2);
  }

  lemma ActiveShaped(g: Game, r: Option<Received>, atoi: string -> int, name1: string, name2: string)
    requires AllShaped(g, name1, name2)
    ensures AllShaped(ActivePart(g, r, atoi), name1, name2)
  {
    hide BoardText, MovePart;
    SendShaped(g, g.turn, Fail(10, "Invalid"), name1, name2);
    if r.Some? && r.value.Message? && Find(r.value.body, '|').Some? {
      var i := Find(r.value.body, '|').value;
      MoveShaped(g, atoi(r.value.body[..i]), atoi(r.value.body[i + 1..]), name1, name2);
    }
  }

  lemma MoveShaped(g: Game, pile: int, amount: int, name1: string, name2: string)
    requires AllShaped(g, name1, name2)
    ensures AllShaped(MovePart(g, pile, amount), name1, name2)
  {
    hide BoardText, Stones;
  }

  lemma TurnShaped(g: Game, e: Poll, atoi: string -> int, name1: string, name2: string)
    requires AllShaped(g, name1, name2)
    ensures AllShaped(Turn(g, e, atoi), name1, name2)
  {
    hide IdlePart, ActivePart, AllShaped;
    IdleShaped(g, e.Of(Other(g.turn)), name1, name2);
    ActiveShaped(IdlePart(g, e.Of(Other(g.turn))), e.Of(g.turn), atoi, name1, name2);
  }

  lemma {:induction false} LoopShaped(g: Game, es: seq<Poll>, atoi: string -> int, name1: string, name2: string)
    requires AllShaped(g, name1, name2)
    ensures AllShaped(Loop(g, es, atoi), name1, name2)
    decreases |es|
  {
    if !g.over && es != [] {
      hide Turn, AllShaped;
      TurnShaped(g, es[0], atoi, name1, name2);
      LoopShaped(Turn(g, es[0], atoi), es[1..], atoi, name1, name2);
    }
  }

  /** The game when the thread has stopped, or as it waits in poll. */
  function Final(name1: string, name2: string, es: seq<Poll>, atoi: string -> int): Game {
    var g := Loop(Opening(name1, name2), es, atoi);
    if g.over then Closing(g) else g
  }

  lemma FinalShaped(name1: string, name2: string, es: seq<Poll>, atoi: string -> int)
    ensures AllShaped(Final(name1, name2, es, atoi), name1, name2)
    ensures Sound(Final(name1, name2, es, atoi))
  {
    hide Loop, Opening, AllShaped, Sound, Closing, EndsAt, EndedBy;
    var g := Loop(Opening(name1, name2), es, atoi);
    OpeningShaped(name1, name2);
    LoopShaped(Opening(name1, name2), es, atoi, name1, name2);
    GameIsSound(name1, name2, es, atoi);
    GameEndsIff(name1, name2, es, atoi);
    if g.over {
      var n, c :| EndsAt(Opening(name1, name2), es, atoi, n, c);
      WinnerIsPlayer(g, c);
      ClosingShaped(g, name1, name2);
    }
  }

  lemma WinnerIsPlayer(g: Game, c: Cause)
    requires EndedBy(g, c)
    ensures 0 <= g.winner <= 2
  {
  }

  lemma ClosingShaped(g: Game, name1: string, name2: string)
    requires AllShaped(g, name1, name2) && 0 <= g.winner <= 2
    ensures AllShaped(Closing(g), name1, name2)
  {
    hide BoardText;
  }

  /** With names as the handshake admits them, every message of every game fits a frame. */
  lemma EveryMessageFits(name1: string, name2: string, es: seq<Poll>, atoi: string -> int, i: nat)
    requires NUL !in name1 && NUL !in name2 && |name1| <= 72 && |name2| <= 72
    requires i < |Final(name1, name2, es, atoi).sent|
    ensures Fits(Final(name1, name2, es, atoi).sent[i].msg)
  {
    hide Final, Fits, Shaped, Current;
    FinalShaped(name1, name2, es, atoi);
    var g := Final(name1, name2, es, atoi);
    assert Current(g.moves, g.sent[i]) && Shaped(g.sent[i].msg, name1, name2);
    ShapedFits(g.sent[i].msg, name1, name2, g.moves, g.sent[i]);
  }

  /** And the type and the body of every message say what the message says. */
  lemma EveryMessageUnderstood(name1: string, name2: string, es: seq<Poll>, atoi: string -> int, i: nat)
    requires i < |Final(name1, name2, es, atoi).sent|
    ensures var m := Final(name1, name2, es, atoi).sent[i].msg;
            Understood(Kind(m), Body(m)) == Some(m)
  {
    hide Final, Understood, Kind, Body, BoardText, Legit, BoardAfter;
    FinalShaped(name1, name2, es, atoi);
    var g := Final(name1, name2, es, atoi);
    assert Current(g.moves, g.sent[i]);
    if g.sent[i].msg.Over? {
      BoardHasNoBar(BoardAfter(g.moves[..g.sent[i].after]));
    }
    MessageUnderstood(g.sent[i].msg);
  }

  // ----- what a client receives -----

  /** The payloads written to one player, in order. */
  function PayloadsTo(sent: seq<Sent>, player: int): seq<string> {
    if sent == [] then []
    else (if sent[0].to == player then [Payload(sent[0].msg)] else []) + PayloadsTo(sent[1..], player)
  }

  /** The messages that player should get. */
  function MessagesTo(sent: seq<Sent>, player: int): seq<Received> {
    if sent == [] then []
    else (if sent[0].to == player then [Message(Kind(sent[0].msg), Body(sent[0].msg))] else [])
         + MessagesTo(sent[1..], player)
  }

  lemma {:induction false} PayloadsFit(sent: seq<Sent>, player: int)
    requires forall i :: 0 <= i < |sent| ==> Fits(sent[i].msg)
    ensures forall i :: 0 <= i < |PayloadsTo(sent, player)| ==>
              NUL !in PayloadsTo(sent, player)[i] && |PayloadsTo(sent, player)[i]| <= 98
    ensures SplitAll(PayloadsTo(sent, player)) == MessagesTo(sent, player)
  {
    hide Split, Payload, Kind, Body;
    if sent != [] {
      PayloadsFit(sent[1..], player);
      assert Fits(sent[0].msg);
      SplitPayload(sent[0].msg);
      var p, ps := Payload(sent[0].msg), PayloadsTo(sent[1..], player);
      assert ([p] + ps)[1..] == ps;
      assert [] + ps == ps && [] + MessagesTo(sent[1..], player) == MessagesTo(sent[1..], player);
    }
  }

  /** Whatever the players do, each of them receives exactly the messages it was sent, with
      types and bodies, in order, out of the bytes the game thread writes to it. */
  lemma {:induction false} GameArrives(name1: string, name2: string, es: seq<Poll>, atoi: string -> int,
                                       player: int, rest: string)
    requires NUL !in name1 && NUL !in name2 && |name1| <= 72 && |name2| <= 72
    ensures var ps := PayloadsTo(Final(name1, name2, es, atoi).sent, player);
            ReceiveMany(Stream(ps) + rest, |ps|) == (MessagesTo(Final(name1, name2, es, atoi).sent, player), rest)
  {
    hide *;
    var sent := Final(name1, name2, es, atoi).sent;
    forall i | 0 <= i < |sent| ensures Fits(sent[i].msg) {
      EveryMessageFits(name1, name2, es, atoi, i);
    }
    PayloadsFit(sent, player);
    StreamRoundTrip(PayloadsTo(sent, player), rest);
  }

  /** So it is in every game that the lobby makes, in every interleaving: nothing is assumed of
      the names, the handshake has seen to them. */
  lemma {:induction false} LobbyGameArrives(run: seq<Lobby.Action>, g: nat, es: seq<Poll>, atoi: string -> int,
                                            player: int, rest: string)
    requires Lobby.Possible(Lobby.EMPTY, run) && g < |Lobby.After(Lobby.EMPTY, run).games|
    ensures var s := Lobby.After(Lobby.EMPTY, run); var m := s.games[g];
            && m.p1 < |s.clients| && m.p2 < |s.clients|
            && var sent := Final(s.clients[m.p1].name, s.clients[m.p2].name, es, atoi).sent;
               var ps := PayloadsTo(sent, player);
               ReceiveMany(Stream(ps) + rest, |ps|) == (MessagesTo(sent, player), rest)
  {
    hide Lobby.Possible, Lobby.After, Final, PayloadsTo, MessagesTo, Stream, ReceiveMany;
    Lobby.GameNamesFit(run, g);
    var s := Lobby.After(Lobby.EMPTY, run);
    var m := s.games[g];
    GameArrives(s.clients[m.p1].name, s.clients[m.p2].name, es, atoi, player, rest);
  }
}
