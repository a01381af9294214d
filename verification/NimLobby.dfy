/** The matchmaking protocol of nimd.c: one handle_client thread per connection, one
    game_thread per match, and the two globals `waiting_player` and `active_names` under one
    mutex. Each critical section is one atomic step; poll, read and send lie in between.
    Players are numbered by their connection. */
module NimLobby {
  import opened Options
  import opened CText
  import opened NimWire

  const NAME_LIMIT: nat := 72

  // ----- the list of active names -----

  function Added(names: seq<string>, name: string): seq<string> {
    if name in names then names else [name] + names
  }

  /** The list without the first node that holds `name`. */
  function Removed(names: seq<string>, name: string): seq<string> {
    if names == [] then []
    else if names[0] == name then names[1..]
    else [names[0]] + Removed(names[1..], name)
  }

  predicate Distinct(names: seq<string>) {
    forall i, j :: 0 <= i < j < |names| ==> names[i] != names[j]
  }

  lemma {:induction false} RemovedFacts(names: seq<string>, name: string)
    requires Distinct(names)
    ensures Distinct(Removed(names, name))
    ensures forall n :: n in Removed(names, name) <==> n in names && n != name
  {
    if names != [] {
      var x, rest := names[0], names[1..];
      assert names == [x] + rest;
      assert forall n :: n in names <==> n == x || n in rest;
      assert x !in rest;
      if x != name {
        RemovedFacts(rest, name);
        assert forall n :: n in [x] + Removed(rest, name) <==> n == x || n in Removed(rest, name);
      }
    }
  }

  lemma {:induction false} RemovedAt(names: seq<string>, name: string, i: nat)
    requires i <= |names| && name !in names[..i]
    ensures i < |names| && names[i] == name ==> Removed(names, name) == names[..i] + names[i + 1..]
    ensures i == |names| ==> Removed(names, name) == names
  {
    if i > 0 {
      assert names[..i][0] == names[0] && names[..i][1..] == names[1..][..i - 1];
      RemovedAt(names[1..], name, i - 1);
    }
  }

  /** `active_names`, newest first. */
  class NameList {
    var names: seq<string>

    constructor ()
      ensures names == []
    {
      names := [];
    }

    /** register_name: -1 when the name is taken. */
    method RegisterName(name: string) returns (rc: int)
      modifies this
      ensures names == Added(old(names), name)
      ensures rc == if name in old(names) then -1 else 0
    {
      var curr := 0;
      while curr < |names|
        invariant curr <= |names| && name !in names[..curr]
      {
        if names[curr] == name {
          return -1;
        }
        curr := curr + 1;
      }
      names := [name] + names;
      return 0;
    }

    /** remove_name. */
    method RemoveName(name: string)
      modifies this
      ensures names == Removed(old(names), name)
    {
      var curr := 0;
      while curr < |names|
        invariant curr <= |names| && name !in names[..curr]
      {
        if names[curr] == name {
          RemovedAt(names, name, curr);
          names := names[..curr] + names[curr + 1..];
          return;
        }
        curr := curr + 1;
      }
      RemovedAt(names, name, curr);
    }
  }

  // ----- the protocol -----

  /** Where a handle_client thread is: before its first receive_msg, before register_name,
      before the match, in the poll loop, past the poll loop with a message to read, or
      ended. */
  datatype Pc = Connected | Opening | Registered | Polling | Leaving | Ended

  datatype Client = Client(pc: Pc, name: string)

  /** Where a game_thread is: in its loop, past it with the connections closed, or past
      remove_name. */
  datatype Stage = Running | Finished | Released

  datatype Match = Match(p1: nat, p2: nat, stage: Stage) {
    predicate Has(c: nat) {
      p1 == c || p2 == c
    }
  }

  /** The threads and the globals. `held` records the players whose name has been registered
      and not yet removed. */
  datatype Lobby = Lobby(
    clients: seq<Client>, waiting: Option<nat>, names: seq<string>, games: seq<Match>, held: set<nat>)

  const EMPTY: Lobby := Lobby([], None, [], [], {})

  datatype Action =
    | Accept
    | HearOpen(c: nat, m: Received)
    | Register(c: nat)
    | Enter(c: nat)
    | Wake(c: nat, ready: bool)
    | Leave(c: nat)
    | GameRead(g: nat, second: bool)
    | GameEnd(g: nat)
    | GameRelease(g: nat)

  predicate At(s: Lobby, c: nat, pc: Pc) {
    c < |s.clients| && s.clients[c].pc == pc
  }

  /** A step can be taken in its place in the thread. What receive_msg yields is made of C
      strings, see `ReceivesText`; it is arbitrary otherwise. */
  predicate Enabled(s: Lobby, a: Action) {
    match a
    case Accept => true
    case HearOpen(c, m) => At(s, c, Connected) && IsText(m)
    case Register(c) => At(s, c, Opening)
    case Enter(c) => At(s, c, Registered)
    case Wake(c, ready) => At(s, c, Polling)
    case Leave(c) => At(s, c, Leaving)
    case GameRead(g, second) => g < |s.games| && s.games[g].stage == Running
    case GameEnd(g) => g < |s.games| && s.games[g].stage == Running
    case GameRelease(g) =>
      g < |s.games| && s.games[g].stage == Finished && s.games[g].p1 < |s.clients| && s.games[g].p2 < |s.clients|
  }

  function SetPc(s: Lobby, c: nat, pc: Pc): Lobby
    requires c < |s.clients|
  {
    s.(clients := s.clients[c := s.clients[c].(pc := pc)])
  }

  function Do(s: Lobby, a: Action): Lobby
    requires Enabled(s, a)
  {
    match a
    case Accept => s.(clients := s.clients + [Client(Connected, "")])
    case HearOpen(c, m) =>
      if m.Message? && m.kind == "OPEN" && |m.body| <= NAME_LIMIT
      then s.(clients := s.clients[c := Client(Opening, m.body)])
      else SetPc(s, c, Ended)
    case Register(c) =>
      var name := s.clients[c].name;
      if name in s.names then SetPc(s, c, Ended)
      else SetPc(s, c, Registered).(names := Added(s.names, name), held := s.held + {c})
    case Enter(c) =>
      if s.waiting == None then SetPc(s, c, Polling).(waiting := Some(c))
      else SetPc(s, c, Ended).(waiting := None, games := s.games + [Match(s.waiting.value, c, Running)])
    case Wake(c, ready) =>
      if s.waiting != Some(c) then SetPc(s, c, Ended)
      else if !ready then s
      else SetPc(s, c, Leaving).(waiting := None, names := Removed(s.names, s.clients[c].name), held := s.held - {c})
    case Leave(c) => SetPc(s, c, Ended)
    case GameRead(g, second) => s
    case GameEnd(g) => s.(games := s.games[g := s.games[g].(stage := Finished)])
    case GameRelease(g) =>
      var m := s.games[g];
      s.(games := s.games[g := m.(stage := Released)],
         names := Removed(Removed(s.names, s.clients[m.p1].name), s.clients[m.p2].name),
         held := s.held - {m.p1, m.p2})
  }

  predicate Possible(s: Lobby, run: seq<Action>)
    decreases |run|
  {
    run == [] || (Enabled(s, run[0]) && Possible(Do(s, run[0]), run[1..]))
  }

  /** The state after any interleaving of the threads' steps. */
  function After(s: Lobby, run: seq<Action>): Lobby
    requires Possible(s, run)
    decreases |run|
  {
    if run == [] then s else After(Do(s, run[0]), run[1..])
  }

  // ----- ownership -----

  /** Who holds a player: its own handle_client thread, or a game as one of its two seats. */
  datatype Owner = Handler | Seat(g: nat, second: bool)

  predicate Owns(s: Lobby, o: Owner, c: nat) {
    match o
    case Handler =>
      && c < |s.clients|
      && (s.clients[c].pc in {Connected, Opening, Registered, Leaving} || s.waiting == Some(c))
    case Seat(g, second) =>
      && g < |s.games| && s.games[g].stage != Released
      && c == if second then s.games[g].p2 else s.games[g].p1
  }

  predicate InGame(s: Lobby, g: nat, c: nat) {
    g < |s.games| && s.games[g].Has(c)
  }

  // ----- the invariant -----

  /** The waiting player is polling, registered, and in no game, past or present. */
  ghost predicate WaitingInv(s: Lobby) {
    s.waiting.Some? ==>
      var w := s.waiting.value;
      At(s, w, Polling) && w in s.held && forall g :: !InGame(s, g, w)
  }

  /** Each game has two players, past their handshake, registered until it is released. */
  ghost predicate GamesInv(s: Lobby) {
    forall g :: 0 <= g < |s.games| ==> GameOk(s, s.games[g])
  }

  predicate GameOk(s: Lobby, m: Match) {
    && m.p1 != m.p2
    && Matched(s, m.p1) && Matched(s, m.p2)
    && (m.stage != Released <==> m.p1 in s.held) && (m.stage != Released <==> m.p2 in s.held)
  }

  predicate Matched(s: Lobby, c: nat) {
    c < |s.clients| && (s.clients[c].pc == Polling || s.clients[c].pc == Ended)
  }

  /** No player is ever in two games. */
  ghost predicate OnceInv(s: Lobby) {
    forall g, h, c :: InGame(s, g, c) && InGame(s, h, c) ==> g == h
  }

  /** The registered, unreleased players are where they should be, and nobody else is. */
  ghost predicate HeldInv(s: Lobby) {
    && (forall c <- s.held :: Placed(s, c))
    && (forall c :: 0 <= c < |s.clients| ==> ClientOk(s, c))
  }

  /** Past register_name: on the way to the match, waiting, or in a game. */
  ghost predicate Placed(s: Lobby, c: nat) {
    c < |s.clients| && (s.clients[c].pc == Registered || s.waiting == Some(c) || exists g: nat :: InGame(s, g, c))
  }

  ghost predicate ClientOk(s: Lobby, c: nat)
    requires c < |s.clients|
  {
    match s.clients[c].pc
    case Registered => c in s.held && forall g: nat :: !InGame(s, g, c)
    case Connected => c !in s.held
    case Opening => c !in s.held
    case Leaving => c !in s.held
    case _ => true
  }

  /** The list of active names is exactly the names of those players, without duplicates. */
  ghost predicate NamesInv(s: Lobby) {
    && Distinct(s.names)
    && (forall c <- s.held :: c < |s.clients| && s.clients[c].name in s.names)
    && (forall n <- s.names :: exists c <- s.held :: c < |s.clients| && s.clients[c].name == n)
    && (forall c, d :: c in s.held && d in s.held && c < |s.clients| && d < |s.clients| && c != d ==>
          s.clients[c].name != s.clients[d].name)
  }

  ghost predicate Inv(s: Lobby) {
    WaitingInv(s) && GamesInv(s) && OnceInv(s) && HeldInv(s) && NamesInv(s)
  }

  // ----- every step keeps the invariant -----

  lemma NamesKept(s: Lobby, t: Lobby)
    requires NamesInv(s) && t.held == s.held && t.names == s.names && |s.clients| <= |t.clients|
    requires forall c <- s.held :: c < |s.clients| && t.clients[c].name == s.clients[c].name
    ensures NamesInv(t)
  {
    forall n <- t.names ensures exists c <- t.held :: c < |t.clients| && t.clients[c].name == n {
      var c :| c in s.held && c < |s.clients| && s.clients[c].name == n;
      assert t.clients[c].name == n;
    }
  }

  lemma GamesKept(s: Lobby, t: Lobby)
    requires GamesInv(s) && OnceInv(s) && t.games == s.games
    requires forall c: nat :: Matched(s, c) ==> Matched(t, c) && (c in s.held <==> c in t.held)
    ensures GamesInv(t) && OnceInv(t)
    ensures forall g: nat, c: nat :: InGame(t, g, c) <==> InGame(s, g, c)
  {
    forall g | 0 <= g < |t.games| ensures GameOk(t, t.games[g]) {
      assert GameOk(s, s.games[g]);
    }
    forall g: nat, h: nat, c: nat | InGame(t, g, c) && InGame(t, h, c) ensures g == h {
      assert InGame(s, g, c) && InGame(s, h, c);
    }
  }

  /** A player before its match, or past an unsuccessful wait, is in no game. */
  lemma NotInGame(s: Lobby, c: nat)
    requires GamesInv(s) && c < |s.clients| && s.clients[c].pc != Polling && s.clients[c].pc != Ended
    ensures forall g: nat :: !InGame(s, g, c)
  {
    forall g: nat ensures !InGame(s, g, c) {
      if g < |s.games| {
        assert GameOk(s, s.games[g]);
      }
    }
  }

  /** The places of everybody but the player who moves; `x` is a possible new player. */
  lemma PlacesKept(s: Lobby, t: Lobby, moving: set<nat>)
    requires HeldInv(s) && |s.clients| <= |t.clients|
    requires forall c :: 0 <= c < |s.clients| && c !in moving ==>
               && t.clients[c] == s.clients[c] && (c in t.held <==> c in s.held)
               && (s.waiting == Some(c) ==> t.waiting == Some(c))
    requires forall g: nat, c: nat :: c !in moving ==> (InGame(t, g, c) <==> InGame(s, g, c))
    requires forall c <- moving :: c in t.held ==> Placed(t, c)
    requires forall c <- moving :: c < |t.clients| ==> ClientOk(t, c)
    requires forall c :: |s.clients| <= c < |t.clients| ==> t.clients[c].pc == Connected && c !in t.held
    requires forall c <- t.held :: c in s.held || c in moving
    ensures HeldInv(t)
  {
    forall c <- t.held ensures Placed(t, c) {
      if c !in moving {
        assert Placed(s, c);
        if s.clients[c].pc != Registered && s.waiting != Some(c) {
          var g: nat :| InGame(s, g, c);
          assert InGame(t, g, c);
        }
      }
    }
    forall c | 0 <= c < |t.clients| ensures ClientOk(t, c) {
      if c < |s.clients| && c !in moving {
        assert ClientOk(s, c);
      }
    }
  }

  lemma Together(s: Lobby)
    requires WaitingInv(s) && GamesInv(s) && OnceInv(s) && HeldInv(s) && NamesInv(s)
    ensures Inv(s)
  {
  }

  /** A step of a thread whose player is unregistered and unmatched. */
  lemma OutsiderInv(s: Lobby, c: nat, t: Lobby)
    requires Inv(s) && c < |s.clients| && |t.clients| == |s.clients| && t.clients[c].pc != Registered
    requires t == s.(clients := s.clients[c := t.clients[c]])
    requires c !in s.held && s.waiting != Some(c) && !Matched(s, c)
    ensures Inv(t)
  {
    NamesKept(s, t);
    GamesKept(s, t);
    PlacesKept(s, t, {c});
    hide HeldInv, GamesInv, OnceInv, NamesInv, InGame;
    assert WaitingInv(t);
    hide *;
    Together(t);
  }

  lemma AcceptInv(s: Lobby, t: Lobby)
    requires Inv(s) && t == s.(clients := s.clients + [Client(Connected, "")])
    ensures Inv(t)
  {
    HeldAreClients(s);
    NamesKept(s, t);
    GamesKept(s, t);
    PlacesKept(s, t, {});
    hide HeldInv, GamesInv, OnceInv, NamesInv, InGame;
    assert WaitingInv(t);
    hide *;
    Together(t);
  }

  lemma HeldAreClients(s: Lobby)
    requires HeldInv(s)
    ensures forall c <- s.held :: c < |s.clients|
  {
    forall c <- s.held ensures c < |s.clients| {
      assert Placed(s, c);
    }
  }

  lemma RegisterInv(s: Lobby, c: nat, t: Lobby)
    requires Inv(s) && At(s, c, Opening) && s.clients[c].name !in s.names
    requires t == SetPc(s, c, Registered).(names := [s.clients[c].name] + s.names, held := s.held + {c})
    ensures Inv(t)
  {
    assert ClientOk(s, c);
    NotInGame(s, c);
    GamesKept(s, t);
    RegisterNames(s, t, c);
    PlacesKept(s, t, {c});
    hide HeldInv, GamesInv, OnceInv, NamesInv, InGame;
    assert WaitingInv(t);
    hide *;
    Together(t);
  }

  lemma ConsNames(name: string, names: seq<string>)
    requires Distinct(names) && name !in names
    ensures Distinct([name] + names)
    ensures forall n :: n in [name] + names <==> n == name || n in names
  {
  }

  lemma RegisterNames(s: Lobby, t: Lobby, c: nat)
    requires NamesInv(s) && c < |s.clients| && s.clients[c].name !in s.names && c !in s.held
    requires t.names == [s.clients[c].name] + s.names && t.held == s.held + {c}
    requires |t.clients| == |s.clients| && forall d :: 0 <= d < |s.clients| ==> t.clients[d].name == s.clients[d].name
    ensures NamesInv(t)
  {
    hide Distinct;
    ConsNames(s.clients[c].name, s.names);
    forall n <- t.names ensures exists d <- t.held :: d < |t.clients| && t.clients[d].name == n {
      if n == s.clients[c].name {
        assert c in t.held;
      } else {
        var d :| d in s.held && d < |s.clients| && s.clients[d].name == n;
        assert d in t.held;
      }
    }
  }

  lemma FirstInv(s: Lobby, c: nat, t: Lobby)
    requires Inv(s) && At(s, c, Registered) && s.waiting == None
    requires t == SetPc(s, c, Polling).(waiting := Some(c))
    ensures Inv(t)
  {
    assert ClientOk(s, c);
    NamesKept(s, t);
    GamesKept(s, t);
    PlacesKept(s, t, {c});
    hide HeldInv, GamesInv, OnceInv, NamesInv, InGame;
    assert WaitingInv(t);
    hide *;
    Together(t);
  }

  lemma SecondInv(s: Lobby, c: nat, o: nat, t: Lobby)
    requires Inv(s) && At(s, c, Registered) && s.waiting == Some(o)
    requires t == SetPc(s, c, Ended).(waiting := None, games := s.games + [Match(o, c, Running)])
    ensures Inv(t)
  {
    assert ClientOk(s, c);
    NamesKept(s, t);
    MatchGames(s, t, o, c);
    assert InGame(t, |s.games|, o) && InGame(t, |s.games|, c);
    hide GamesInv, OnceInv, NamesInv, InGame;
    PlacesKept(s, t, {c, o});
    hide *;
    OnlyWaiting(t);
    Together(t);
  }

  lemma OnlyWaiting(t: Lobby)
    requires t.waiting == None
    ensures WaitingInv(t)
  {
  }

  /** A new game of two players who are in none. */
  lemma MatchGames(s: Lobby, t: Lobby, o: nat, c: nat)
    requires GamesInv(s) && OnceInv(s) && o != c && o in s.held && c in s.held && t.held == s.held
    requires forall g: nat :: !InGame(s, g, o) && !InGame(s, g, c)
    requires t.games == s.games + [Match(o, c, Running)]
    requires forall d: nat :: Matched(s, d) ==> Matched(t, d)
    requires Matched(t, o) && Matched(t, c)
    ensures GamesInv(t) && OnceInv(t)
    ensures forall g: nat, d: nat :: InGame(t, g, d) <==> InGame(s, g, d) || (g == |s.games| && (d == o || d == c))
  {
    forall g | 0 <= g < |t.games| ensures GameOk(t, t.games[g]) {
      if g < |s.games| {
        assert GameOk(s, s.games[g]);
      }
    }
    forall g: nat, h: nat, d: nat | InGame(t, g, d) && InGame(t, h, d) ensures g == h {
      assert InGame(s, g, d) || (g == |s.games| && (d == o || d == c));
      assert InGame(s, h, d) || (h == |s.games| && (d == o || d == c));
      assert d == o || d == c ==> !InGame(s, g, d) && !InGame(s, h, d);
    }
  }

  lemma MatchedPlaces(s: Lobby, c: nat, t: Lobby)
    requires HeldInv(s) && At(s, c, Polling) && s.waiting != Some(c) && t == SetPc(s, c, Ended)
    ensures HeldInv(t)
  {
    assert forall g: nat, d: nat :: InGame(t, g, d) <==> InGame(s, g, d);
    if c in s.held {
      assert Placed(s, c);
      var g: nat :| InGame(s, g, c);
      assert InGame(t, g, c);
    }
    PlacesKept(s, t, {c});
  }

  /** The opponent's poll loop ends when it finds that it has been matched. */
  lemma MatchedInv(s: Lobby, c: nat, t: Lobby)
    requires Inv(s) && At(s, c, Polling) && s.waiting != Some(c) && t == SetPc(s, c, Ended)
    ensures Inv(t)
  {
    NamesKept(s, t);
    GamesKept(s, t);
    MatchedPlaces(s, c, t);
    hide HeldInv, GamesInv, OnceInv, NamesInv, InGame;
    assert WaitingInv(t);
    hide *;
    Together(t);
  }

  /** Removing the names of some held players. */
  lemma ReleaseNames(s: Lobby, t: Lobby, gone: set<nat>)
    requires NamesInv(s) && t.held == s.held - gone && gone <= s.held
    requires |t.clients| == |s.clients| && forall d :: 0 <= d < |s.clients| ==> t.clients[d].name == s.clients[d].name
    requires Distinct(t.names)
    requires forall n :: n in t.names <==> n in s.names && forall d <- gone :: d < |s.clients| && s.clients[d].name != n
    ensures NamesInv(t)
  {
    forall d <- t.held ensures d < |t.clients| && t.clients[d].name in t.names {
      assert s.clients[d].name in s.names;
      forall e <- gone ensures e < |s.clients| && s.clients[e].name != s.clients[d].name {
        assert e in s.held && d in s.held && d != e;
        assert s.clients[e].name in s.names;
      }
    }
    forall n <- t.names ensures exists d <- t.held :: d < |t.clients| && t.clients[d].name == n {
      var d :| d in s.held && d < |s.clients| && s.clients[d].name == n;
      assert d !in gone;
      assert d in t.held;
    }
  }

  lemma QuitInv(s: Lobby, c: nat, t: Lobby)
    requires Inv(s) && At(s, c, Polling) && s.waiting == Some(c)
    requires t == SetPc(s, c, Leaving).(
               waiting := None, names := Removed(s.names, s.clients[c].name), held := s.held - {c})
    ensures Inv(t)
  {
    QuitGames(s, c, t);
    RemovedFacts(s.names, s.clients[c].name);
    ReleaseNames(s, t, {c});
    hide GamesInv, OnceInv, NamesInv, InGame, Removed;
    PlacesKept(s, t, {c});
    hide *;
    OnlyWaiting(t);
    Together(t);
  }

  lemma QuitGames(s: Lobby, c: nat, t: Lobby)
    requires GamesInv(s) && OnceInv(s) && t.games == s.games && t.held == s.held - {c}
    requires forall g: nat :: !InGame(s, g, c)
    requires forall d: nat :: Matched(s, d) && d != c ==> Matched(t, d)
    ensures GamesInv(t) && OnceInv(t)
    ensures forall g: nat, d: nat :: InGame(t, g, d) <==> InGame(s, g, d)
  {
    forall g | 0 <= g < |t.games| ensures GameOk(t, t.games[g]) {
      assert GameOk(s, s.games[g]) && !InGame(s, g, c);
    }
    forall g: nat, h: nat, d: nat | InGame(t, g, d) && InGame(t, h, d) ensures g == h {
      assert InGame(s, g, d) && InGame(s, h, d);
    }
  }

  /** A game that moves on keeps its players. */
  lemma StageKept(s: Lobby, t: Lobby, g: nat)
    requires OnceInv(s) && g < |s.games| && |t.games| == |s.games|
    requires forall h :: 0 <= h < |s.games| ==> t.games[h].p1 == s.games[h].p1 && t.games[h].p2 == s.games[h].p2
    ensures OnceInv(t)
    ensures forall h: nat, d: nat :: InGame(t, h, d) <==> InGame(s, h, d)
  {
    forall h: nat, k: nat, d: nat | InGame(t, h, d) && InGame(t, k, d) ensures h == k {
      assert InGame(s, h, d) && InGame(s, k, d);
    }
  }

  lemma EndInv(s: Lobby, g: nat, t: Lobby)
    requires Inv(s) && g < |s.games| && s.games[g].stage == Running
    requires t == s.(games := s.games[g := s.games[g].(stage := Finished)])
    ensures Inv(t)
  {
    StageKept(s, t, g);
    NamesKept(s, t);
    EndGames(s, g, t);
    HeldAreClients(s);
    hide GamesInv, OnceInv, NamesInv, InGame;
    PlacesKept(s, t, {});
    assert WaitingInv(t);
    hide *;
    Together(t);
  }

  lemma EndGames(s: Lobby, g: nat, t: Lobby)
    requires GamesInv(s) && g < |s.games| && s.games[g].stage == Running
    requires t == s.(games := s.games[g := s.games[g].(stage := Finished)])
    ensures GamesInv(t)
  {
    forall h | 0 <= h < |t.games| ensures GameOk(t, t.games[h]) {
      assert GameOk(s, s.games[h]);
    }
  }

  lemma ReleaseInv(s: Lobby, g: nat, m: Match, t: Lobby)
    requires Inv(s) && g < |s.games| && m == s.games[g] && m.stage == Finished
    requires m.p1 < |s.clients| && m.p2 < |s.clients|
    requires t == s.(games := s.games[g := m.(stage := Released)],
                     names := Removed(Removed(s.names, s.clients[m.p1].name), s.clients[m.p2].name),
                     held := s.held - {m.p1, m.p2})
    ensures Inv(t)
  {
    assert GameOk(s, m);
    ReleaseTwo(s, m, t);
    StageKept(s, t, g);
    ReleaseGames(s, g, m, t);
    assert InGame(s, g, m.p1) && InGame(s, g, m.p2);
    hide GamesInv, OnceInv, NamesInv, InGame, Removed;
    PlacesKept(s, t, {m.p1, m.p2});
    assert WaitingInv(t);
    hide *;
    Together(t);
  }

  lemma ReleaseTwo(s: Lobby, m: Match, t: Lobby)
    requires NamesInv(s) && m.p1 in s.held && m.p2 in s.held && m.p1 < |s.clients| && m.p2 < |s.clients|
    requires t.names == Removed(Removed(s.names, s.clients[m.p1].name), s.clients[m.p2].name)
    requires t.held == s.held - {m.p1, m.p2} && t.clients == s.clients
    ensures NamesInv(t)
  {
    RemovedFacts(s.names, s.clients[m.p1].name);
    RemovedFacts(Removed(s.names, s.clients[m.p1].name), s.clients[m.p2].name);
    hide Removed;
    ReleaseNames(s, t, {m.p1, m.p2});
  }

  lemma ReleaseGames(s: Lobby, g: nat, m: Match, t: Lobby)
    requires GamesInv(s) && OnceInv(s) && g < |s.games| && m == s.games[g]
    requires t.games == s.games[g := m.(stage := Released)] && t.held == s.held - {m.p1, m.p2} && t.clients == s.clients
    ensures GamesInv(t)
  {
    assert InGame(s, g, m.p1) && InGame(s, g, m.p2);
    forall h | 0 <= h < |t.games| ensures GameOk(t, t.games[h]) {
      assert GameOk(s, s.games[h]);
      if h != g {
        assert !InGame(s, h, m.p1) && !InGame(s, h, m.p2);
      }
    }
  }

  lemma StepInv(s: Lobby, a: Action)
    requires Inv(s) && Enabled(s, a)
    ensures Inv(Do(s, a))
  {
    var t := Do(s, a);
    hide NamesInv, OnceInv, InGame, WaitingInv, GamesInv;
    match a
    case Accept => AcceptInv(s, t);
    case HearOpen(c, m) =>
      OutsiderFacts(s, c);
      OutsiderInv(s, c, t);
    case Register(c) =>
      OutsiderFacts(s, c);
      if s.clients[c].name in s.names { OutsiderInv(s, c, t); } else { RegisterInv(s, c, t); }
    case Enter(c) =>
      if s.waiting == None { FirstInv(s, c, t); } else { SecondInv(s, c, s.waiting.value, t); }
    case Wake(c, ready) =>
      if s.waiting != Some(c) { MatchedInv(s, c, t); } else if ready { QuitInv(s, c, t); }
    case Leave(c) =>
      OutsiderFacts(s, c);
      OutsiderInv(s, c, t);
    case GameRead(g, second) =>
    case GameEnd(g) => EndInv(s, g, t);
    case GameRelease(g) => ReleaseInv(s, g, s.games[g], t);
  }

  lemma OutsiderFacts(s: Lobby, c: nat)
    requires WaitingInv(s) && HeldInv(s) && (At(s, c, Connected) || At(s, c, Opening) || At(s, c, Leaving))
    ensures c !in s.held && s.waiting != Some(c) && !Matched(s, c)
  {
    assert ClientOk(s, c);
  }

  /** The invariant holds in every state of every interleaving. */
  lemma {:induction false} Reachable(s: Lobby, run: seq<Action>)
    requires Inv(s) && Possible(s, run)
    ensures Inv(After(s, run))
    decreases |run|
  {
    if run != [] {
      StepInv(s, run[0]);
      hide Inv;
      Reachable(Do(s, run[0]), run[1..]);
    }
  }

  lemma {:induction false} ReachableFromEmpty(run: seq<Action>)
    requires Possible(EMPTY, run)
    ensures Inv(After(EMPTY, run))
  {
    Reachable(EMPTY, run);
  }

  // ----- what the steps achieve -----

  /** Every thread but the one of client `c` is where it was, under the same name. */
  predicate OthersStay(s: Lobby, t: Lobby, c: nat) {
    && |t.clients| == |s.clients|
    && forall d :: 0 <= d < |s.clients| && d != c ==> t.clients[d] == s.clients[d]
  }

  /** A new connection is a new client, and nothing else changes. */
  lemma AcceptAdds(s: Lobby)
    ensures var t := Do(s, Accept); var c := |s.clients|;
            && |t.clients| == c + 1 && t.clients[..c] == s.clients && At(t, c, Connected)
            && t.waiting == s.waiting && t.names == s.names && t.games == s.games && t.held == s.held
  {
  }

  /** An OPEN with a name of at most 72 characters leads on to register_name; anything else
      ends the thread. */
  lemma OpenOutcome(s: Lobby, c: nat, m: Received)
    requires Enabled(s, HearOpen(c, m))
    ensures var t := Do(s, HearOpen(c, m));
            && OthersStay(s, t, c)
            && (At(t, c, Opening) <==> m.Message? && m.kind == "OPEN" && |m.body| <= 72)
            && (At(t, c, Opening) ==> t.clients[c].name == m.body)
            && (At(t, c, Opening) || At(t, c, Ended))
            && t.waiting == s.waiting && t.names == s.names && t.games == s.games && t.held == s.held
  {
  }

  /** register_name admits a name exactly when it is not in use. */
  lemma RegisterOutcome(s: Lobby, c: nat)
    requires Inv(s) && Enabled(s, Register(c))
    ensures var t := Do(s, Register(c)); var name := s.clients[c].name;
            && OthersStay(s, t, c) && t.clients[c].name == name
            && t.waiting == s.waiting && t.games == s.games
            && (if name in s.names then At(t, c, Ended) && t.names == s.names && t.held == s.held
                else && At(t, c, Registered) && t.held == s.held + {c} && Distinct(t.names)
                     && forall n :: n in t.names <==> n in s.names || n == name)
  {
    hide WaitingInv, GamesInv, OnceInv, HeldInv, NamesInv, Distinct;
    NamesAreDistinct(s);
    if s.clients[c].name !in s.names {
      ConsNames(s.clients[c].name, s.names);
    }
  }

  lemma NamesAreDistinct(s: Lobby)
    requires NamesInv(s)
    ensures Distinct(s.names)
  {
  }

  /** A player who enters while somebody waits is matched with that player, in one new game in
      which the waiting player is first; otherwise it waits. */
  lemma EnterOutcome(s: Lobby, c: nat)
    requires Enabled(s, Enter(c))
    ensures var t := Do(s, Enter(c));
            && OthersStay(s, t, c) && !At(t, c, Registered)
            && t.names == s.names && t.held == s.held
            && (s.waiting == None ==> t.waiting == Some(c) && At(t, c, Polling) && t.games == s.games)
            && (s.waiting.Some? ==>
                  && t.waiting == None && At(t, c, Ended)
                  && |t.games| == |s.games| + 1 && t.games[..|s.games|] == s.games
                  && t.games[|s.games|].p1 == s.waiting.value && t.games[|s.games|].p2 == c
                  && t.games[|s.games|].stage == Running)
  {
  }

  /** The poll loop: it ends when the player has been matched, goes on when nothing has come,
      and otherwise gives up waiting, with the name free again. */
  lemma WakeOutcome(s: Lobby, c: nat, ready: bool)
    requires Inv(s) && Enabled(s, Wake(c, ready))
    ensures var t := Do(s, Wake(c, ready));
            && OthersStay(s, t, c) && t.games == s.games && t.clients[c].name == s.clients[c].name
            && (s.waiting != Some(c) ==>
                  At(t, c, Ended) && t.waiting == s.waiting && t.names == s.names && t.held == s.held)
            && (s.waiting == Some(c) && !ready ==> t == s)
            && (s.waiting == Some(c) && ready ==>
                  && At(t, c, Leaving) && t.waiting == None && t.held == s.held - {c}
                  && forall n :: n in t.names <==> n in s.names && n != s.clients[c].name)
  {
    hide WaitingInv, GamesInv, OnceInv, HeldInv, NamesInv, Removed, Distinct;
    NamesAreDistinct(s);
    RemovedFacts(s.names, s.clients[c].name);
  }

  lemma LeaveOutcome(s: Lobby, c: nat)
    requires Enabled(s, Leave(c))
    ensures var t := Do(s, Leave(c));
            && OthersStay(s, t, c) && At(t, c, Ended)
            && t.waiting == s.waiting && t.names == s.names && t.games == s.games && t.held == s.held
  {
  }

  /** Everything but game `g` is as it was, and that has the same players. */
  predicate OtherGamesStay(s: Lobby, t: Lobby, g: nat) {
    && t.clients == s.clients && t.waiting == s.waiting
    && |t.games| == |s.games|
    && forall h :: 0 <= h < |s.games| ==>
         if h == g then t.games[h].p1 == s.games[h].p1 && t.games[h].p2 == s.games[h].p2 else t.games[h] == s.games[h]
  }

  lemma GameEndOutcome(s: Lobby, g: nat)
    requires Enabled(s, GameEnd(g))
    ensures var t := Do(s, GameEnd(g));
            OtherGamesStay(s, t, g) && t.games[g].stage == Finished && t.names == s.names && t.held == s.held
  {
  }

  /** The end of a game releases its two players, and their names are free again. */
  lemma GameReleaseOutcome(s: Lobby, g: nat)
    requires Inv(s) && Enabled(s, GameRelease(g))
    ensures var t := Do(s, GameRelease(g)); var m := s.games[g];
            && OtherGamesStay(s, t, g) && t.games[g].stage == Released
            && t.held == s.held - {m.p1, m.p2}
            && forall n :: n in t.names <==> n in s.names && n != s.clients[m.p1].name && n != s.clients[m.p2].name
  {
    hide WaitingInv, GamesInv, OnceInv, HeldInv, NamesInv, Removed, Distinct;
    var m := s.games[g];
    NamesAreDistinct(s);
    RemovedFacts(s.names, s.clients[m.p1].name);
    RemovedFacts(Removed(s.names, s.clients[m.p1].name), s.clients[m.p2].name);
  }

  // ----- who has entered -----

  /** The player waits, or sits in a game, past or present. */
  ghost predicate Settled(s: Lobby, c: nat) {
    s.waiting == Some(c) || exists g: nat :: InGame(s, g, c)
  }

  /** In the run from `s` on, the player gave up waiting. */
  predicate Withdrew(s: Lobby, run: seq<Action>, c: nat)
    requires Possible(s, run)
    decreases |run|
  {
    && run != []
    && ((run[0] == Wake(c, true) && s.waiting == Some(c)) || Withdrew(Do(s, run[0]), run[1..], c))
  }

  lemma EnterSettles(s: Lobby, c: nat)
    requires Enabled(s, Enter(c))
    ensures Settled(Do(s, Enter(c)), c)
  {
    var t := Do(s, Enter(c));
    EnterOutcome(s, c);
    if s.waiting.Some? {
      assert InGame(t, |s.games|, c);
    }
  }

  lemma StaysSettled(s: Lobby, a: Action, c: nat)
    requires Enabled(s, a) && Settled(s, c) && !(a == Wake(c, true) && s.waiting == Some(c))
    ensures Settled(Do(s, a), c)
  {
    var t := Do(s, a);
    if g: nat :| InGame(s, g, c) {
      assert InGame(t, g, c);
    } else if a.Enter? {
      assert InGame(t, |s.games|, c);
    }
  }

  lemma {:induction false} SettledOnwards(s: Lobby, run: seq<Action>, c: nat)
    requires Possible(s, run) && Settled(s, c)
    ensures Settled(After(s, run), c) || Withdrew(s, run, c)
    decreases |run|
  {
    if run != [] && !(run[0] == Wake(c, true) && s.waiting == Some(c)) {
      hide Settled, Enabled, Do;
      StaysSettled(s, run[0], c);
      SettledOnwards(Do(s, run[0]), run[1..], c);
    }
  }

  lemma {:induction false} EnteredFrom(s: Lobby, run: seq<Action>, c: nat)
    requires Possible(s, run) && Enter(c) in run
    ensures Settled(After(s, run), c) || Withdrew(s, run, c)
    decreases |run|
  {
    hide Settled, Enabled, Do;
    if run[0] == Enter(c) {
      EnterSettles(s, c);
      SettledOnwards(Do(s, run[0]), run[1..], c);
    } else {
      assert run == [run[0]] + run[1..];
      EnteredFrom(Do(s, run[0]), run[1..], c);
    }
  }

  /** A client that has entered is waiting or has been given a game, unless a message or a
      hang-up came while it was waiting. */
  lemma {:induction false} EnteredAreServed(run: seq<Action>, c: nat)
    requires Possible(EMPTY, run) && Enter(c) in run
    ensures Settled(After(EMPTY, run), c) || Withdrew(EMPTY, run, c)
  {
    EnteredFrom(EMPTY, run, c);
  }

  /** So two clients that have entered, and have not given up waiting, cannot both be left
      without a game. */
  lemma {:induction false} TwoAreMatched(run: seq<Action>, c: nat, d: nat)
    requires Possible(EMPTY, run) && c != d && Enter(c) in run && Enter(d) in run
    requires !Withdrew(EMPTY, run, c) && !Withdrew(EMPTY, run, d)
    ensures exists g: nat :: InGame(After(EMPTY, run), g, c) || InGame(After(EMPTY, run), g, d)
  {
    hide Possible, After, Withdrew;
    EnteredAreServed(run, c);
    EnteredAreServed(run, d);
    var s := After(EMPTY, run);
    if s.waiting == Some(c) {
      var g: nat :| InGame(s, g, d);
      assert InGame(s, g, c) || InGame(s, g, d);
    } else {
      var g: nat :| InGame(s, g, c);
      assert InGame(s, g, c) || InGame(s, g, d);
    }
  }

  // ----- what the invariant gives, in every interleaving -----

  /** Nobody is ever held by two owners. */
  lemma {:induction false} OneOwner(run: seq<Action>, c: nat, o: Owner, p: Owner)
    requires Possible(EMPTY, run)
    requires Owns(After(EMPTY, run), o, c) && Owns(After(EMPTY, run), p, c)
    ensures o == p
  {
    ReachableFromEmpty(run);
    var s := After(EMPTY, run);
    hide NamesInv, Possible, After;
    if o.Seat? {
      SeatFacts(s, c, o);
    }
    if p.Seat? {
      SeatFacts(s, c, p);
    }
  }

  /** A seated player is not with its handler, and sits once. */
  lemma SeatFacts(s: Lobby, c: nat, o: Owner)
    requires Inv(s) && o.Seat? && Owns(s, o, c)
    ensures InGame(s, o.g, c) && !Owns(s, Handler, c)
    ensures o.second <==> c != s.games[o.g].p1
  {
    hide NamesInv, OnceInv;
    assert GameOk(s, s.games[o.g]);
    assert InGame(s, o.g, c);
    assert ClientOk(s, c);
  }

  /** Every registered, unreleased player is held by one owner: its own thread, or one seat
      of one game that is not over. */
  lemma HeldIsOwned(run: seq<Action>, c: nat) returns (o: Owner)
    requires Possible(EMPTY, run) && c in After(EMPTY, run).held
    ensures Owns(After(EMPTY, run), o, c)
    ensures forall p :: Owns(After(EMPTY, run), p, c) ==> p == o
  {
    ReachableFromEmpty(run);
    var s := After(EMPTY, run);
    assert Placed(s, c);
    if s.clients[c].pc == Registered || s.waiting == Some(c) {
      o := Handler;
    } else {
      var g: nat :| InGame(s, g, c);
      assert GameOk(s, s.games[g]);
      o := Seat(g, s.games[g].p2 == c);
    }
    forall p | Owns(s, p, c) ensures p == o {
      OneOwner(run, c, o, p);
    }
  }

  /** The player whose connection a step reads. */
  function Reads(s: Lobby, a: Action): Option<nat>
    requires Enabled(s, a)
  {
    match a
    case HearOpen(c, m) => Some(c)
    case Leave(c) => Some(c)
    case GameRead(g, second) => Some(if second then s.games[g].p2 else s.games[g].p1)
    case _ => None
  }

  /** The thread that takes a step, as an owner. */
  function Reader(a: Action): Owner {
    match a
    case GameRead(g, second) => Seat(g, second)
    case _ => Handler
  }

  /** Only the current owner of a player ever reads from its connection; so no two threads
      ever stand before a read of the same connection. */
  lemma {:induction false} OnlyOwnersRead(run: seq<Action>, a: Action, b: Action)
    requires Possible(EMPTY, run) && Enabled(After(EMPTY, run), a) && Enabled(After(EMPTY, run), b)
    requires Reads(After(EMPTY, run), a).Some?
    requires Reads(After(EMPTY, run), a) == Reads(After(EMPTY, run), b)
    ensures Owns(After(EMPTY, run), Reader(a), Reads(After(EMPTY, run), a).value)
    ensures Reader(a) == Reader(b)
  {
    hide Possible, After;
    OneOwner(run, Reads(After(EMPTY, run), a).value, Reader(a), Reader(b));
  }

  /** The waiting player is in no game. */
  lemma {:induction false} WaitingIsFree(run: seq<Action>, c: nat, g: nat)
    requires Possible(EMPTY, run) && After(EMPTY, run).waiting == Some(c)
    ensures !InGame(After(EMPTY, run), g, c)
  {
    ReachableFromEmpty(run);
  }

  lemma {:induction false} GamesStay(s: Lobby, run: seq<Action>, g: nat, c: nat)
    requires Possible(s, run) && InGame(s, g, c)
    ensures InGame(After(s, run), g, c)
    decreases |run|
  {
    if run != [] {
      GamesStay(Do(s, run[0]), run[1..], g, c);
    }
  }

  lemma {:induction false} AfterAppend(s: Lobby, run: seq<Action>, more: seq<Action>)
    requires Possible(s, run) && Possible(After(s, run), more)
    ensures Possible(s, run + more) && After(s, run + more) == After(After(s, run), more)
    decreases |run|
  {
    if run == [] {
      assert run + more == more;
    } else {
      assert (run + more)[1..] == run[1..] + more;
      AfterAppend(Do(s, run[0]), run[1..], more);
    }
  }

  /** A matched player never waits again and is never matched again. */
  lemma {:induction false} MatchedOnce(run: seq<Action>, more: seq<Action>, c: nat, g: nat)
    requires Possible(EMPTY, run) && InGame(After(EMPTY, run), g, c)
    requires Possible(After(EMPTY, run), more)
    ensures var t := After(After(EMPTY, run), more);
            t.waiting != Some(c) && forall h: nat :: InGame(t, h, c) ==> h == g
  {
    AfterAppend(EMPTY, run, more);
    ReachableFromEmpty(run + more);
    GamesStay(After(EMPTY, run), more, g, c);
    hide Possible, After, HeldInv, GamesInv, NamesInv;
  }

  /** The list of active names has no duplicates and is exactly the set of names of the
      players registered and not yet released; no two of them share a name, and with none
      left the list is empty. */
  lemma {:induction false} ActiveNames(run: seq<Action>)
    requires Possible(EMPTY, run)
    ensures var s := After(EMPTY, run);
            && Distinct(s.names)
            && (forall c <- s.held :: c < |s.clients|)
            && (forall n :: n in s.names <==> exists c <- s.held :: s.clients[c].name == n)
            && (forall c, d :: c in s.held && d in s.held && c != d ==> s.clients[c].name != s.clients[d].name)
            && (s.held == {} ==> s.names == [])
  {
    ReachableFromEmpty(run);
    var s := After(EMPTY, run);
    hide Possible, After, HeldInv, GamesInv, OnceInv;
    if s.names != [] {
      assert s.names[0] in s.names;
    }
  }

  /** The players of every game, over or not, have different names. */
  ghost predicate DifferInv(s: Lobby) {
    forall g :: 0 <= g < |s.games| ==> Differ(s, s.games[g])
  }

  predicate Differ(s: Lobby, m: Match) {
    m.p1 < |s.clients| && m.p2 < |s.clients| && s.clients[m.p1].name != s.clients[m.p2].name
  }

  /** A player who has been matched keeps its name. */
  lemma MatchedKeepsName(s: Lobby, a: Action, c: nat)
    requires Enabled(s, a) && Matched(s, c)
    ensures c < |Do(s, a).clients| && Do(s, a).clients[c].name == s.clients[c].name
  {
  }

  /** The games after a step: those before it, with the same players, and possibly one more
      of the waiting player and the one who enters. */
  lemma GamesAfter(s: Lobby, a: Action, g: nat)
    requires Enabled(s, a) && g < |Do(s, a).games|
    ensures var t := Do(s, a);
            if g < |s.games| then t.games[g].p1 == s.games[g].p1 && t.games[g].p2 == s.games[g].p2
            else a.Enter? && s.waiting.Some? && t.games[g] == Match(s.waiting.value, a.c, Running)
  {
  }

  lemma StepDiffers(s: Lobby, a: Action)
    requires Inv(s) && Enabled(s, a) && DifferInv(s)
    ensures DifferInv(Do(s, a))
  {
    hide Do, Enabled, Inv;
    var t := Do(s, a);
    forall g | 0 <= g < |t.games| ensures Differ(t, t.games[g]) {
      GamesAfter(s, a, g);
      if g < |s.games| {
        assert Differ(s, s.games[g]);
        OldPlayers(s, g);
        MatchedKeepsName(s, a, s.games[g].p1);
        MatchedKeepsName(s, a, s.games[g].p2);
      } else {
        NewPlayers(s, a.c);
        EnterKeepsNames(s, a.c);
      }
    }
  }

  lemma OldPlayers(s: Lobby, g: nat)
    requires Inv(s) && g < |s.games|
    ensures Matched(s, s.games[g].p1) && Matched(s, s.games[g].p2)
  {
    assert GameOk(s, s.games[g]);
  }

  /** The waiting player and the one who enters are both registered, under different names. */
  lemma NewPlayers(s: Lobby, c: nat)
    requires Inv(s) && Enabled(s, Enter(c)) && s.waiting.Some?
    ensures s.waiting.value < |s.clients| && c < |s.clients|
    ensures s.clients[s.waiting.value].name != s.clients[c].name
  {
    hide GamesInv, OnceInv, InGame;
    assert ClientOk(s, c);
  }

  lemma EnterKeepsNames(s: Lobby, c: nat)
    requires Enabled(s, Enter(c))
    ensures |Do(s, Enter(c)).clients| == |s.clients|
    ensures forall d :: 0 <= d < |s.clients| ==> Do(s, Enter(c)).clients[d].name == s.clients[d].name
  {
  }

  lemma {:induction false} RunDiffers(s: Lobby, run: seq<Action>)
    requires Inv(s) && DifferInv(s) && Possible(s, run)
    ensures DifferInv(After(s, run))
    decreases |run|
  {
    if run != [] {
      StepInv(s, run[0]);
      StepDiffers(s, run[0]);
      hide Inv, DifferInv;
      RunDiffers(Do(s, run[0]), run[1..]);
    }
  }

  /** The two players of any game ever made have different names. */
  lemma {:induction false} OpponentsDiffer(run: seq<Action>, g: nat)
    requires Possible(EMPTY, run) && g < |After(EMPTY, run).games|
    ensures var s := After(EMPTY, run); var m := s.games[g];
            m.p1 < |s.clients| && m.p2 < |s.clients| && s.clients[m.p1].name != s.clients[m.p2].name
  {
    hide Possible, After;
    RunDiffers(EMPTY, run);
    assert Differ(After(EMPTY, run), After(EMPTY, run).games[g]);
  }

  /** The name of every client, from the moment it is taken over, is a C string of at most
      72 characters. */
  predicate NamesFit(s: Lobby) {
    forall c :: 0 <= c < |s.clients| ==> NameFits(s.clients[c].name)
  }

  predicate NameFits(name: string) {
    NUL !in name && |name| <= NAME_LIMIT
  }

  lemma StepNamesFit(s: Lobby, a: Action)
    requires Enabled(s, a) && NamesFit(s)
    ensures NamesFit(Do(s, a))
  {
    forall c | 0 <= c < |Do(s, a).clients| ensures NameFits(Do(s, a).clients[c].name) {
      if c < |s.clients| {
        assert NameFits(s.clients[c].name);
      }
    }
  }

  lemma {:induction false} RunNamesFit(s: Lobby, run: seq<Action>)
    requires Possible(s, run) && NamesFit(s)
    ensures NamesFit(After(s, run))
    decreases |run|
  {
    if run != [] {
      StepNamesFit(s, run[0]);
      hide NamesFit;
      RunNamesFit(Do(s, run[0]), run[1..]);
    }
  }

  /** The players of every game the lobby makes have names that the handshake admits. */
  lemma {:induction false} GameNamesFit(run: seq<Action>, g: nat)
    requires Possible(EMPTY, run) && g < |After(EMPTY, run).games|
    ensures var s := After(EMPTY, run); var m := s.games[g];
            && m.p1 < |s.clients| && NameFits(s.clients[m.p1].name)
            && m.p2 < |s.clients| && NameFits(s.clients[m.p2].name)
  {
    hide Possible, After, NameFits;
    OpponentsDiffer(run, g);
    RunNamesFit(EMPTY, run);
  }
}
