// From the messages of a duel to the leaderboard file: what a whole duel does to the ratings.
module Settlement {
  import opened Bytes
  import opened RecordTable
  import opened Leaderboard
  import opened Ratings
  import Duel

  datatype Players = Players(first: Username, second: Username) {
    function Name(p: Duel.Player): Username {
      if p == Duel.P1 then first else second
    }
  }

  // The ratings after the transfers of a duel, in the order they were made.
  function Settled(g: real, board: map<Username, Entry>, players: Players, transfers: seq<Duel.Transfer>)
    : map<Username, Entry>
    requires g > 1.0
    decreases |transfers|
  {
    if transfers == [] then board
    else
      Settled(g, AfterTransfer(g, board, players.Name(transfers[0].winner), players.Name(transfers[0].loser)),
              players, transfers[1..])
  }

  // startDuel on the stored leaderboard. The transfer is made while the deciding message is handled; nothing else of
  // the duel reads or writes the board.
  method PlayDuel(g: real, file: LeaderboardFile, arena: Duel.Arena, players: Players, problemFound: bool,
                  rounds: seq<Duel.Round>, garbage: bytes)
    returns (phase: Duel.Phase)
    requires g > 1.0 && file.Valid() && UniqueKeys(file.Entries(), Leaderboard.Name) && |garbage| == NAME_SIZE
    requires FitsField(players.first) && FitsField(players.second) && arena.transfers == []
    requires HasRoom(AsMap(file.Entries(), Leaderboard.Name), players.first)
    requires HasRoom(AsMap(file.Entries(), Leaderboard.Name), players.second)
    modifies file.table, arena, arena.player1, arena.player2
    ensures file.Valid() && UniqueKeys(file.Entries(), Leaderboard.Name)
    ensures AsMap(file.Entries(), Leaderboard.Name)
            == Settled(g, old(AsMap(file.Entries(), Leaderboard.Name)), players,
                       if problemFound then Duel.Outcome(arena.Seats(), Duel.Events(rounds)).transfers else [])
    ensures players.first != players.second ==> Total(file.Entries()) == old(Total(file.Entries()))
  {
    hide UniqueKeys, AsMap, Total, LeaderboardFile.Entries, AfterTransfer, Duel.AfterRounds, Duel.Events, Duel.Outcome;
    phase := arena.StartDuel(problemFound, rounds);
    Duel.DuelOutcome(arena.Seats(), rounds);
    TransfersOf(arena.Seats(), rounds);
    if arena.transfers != [] {
      var winner, loser := players.Name(arena.transfers[0].winner), players.Name(arena.transfers[0].loser);
      var _ := UpdateDuelElos(g, file, winner, loser,
                              garbage[..NAME_SIZE - 1 - |winner|], garbage[..NAME_SIZE - 1 - |loser|]);
      assert arena.transfers[1..] == [];
    }
  }

  // The two sides of a transfer are different players.
  lemma TransfersOf(seats: Duel.Seating, rounds: seq<Duel.Round>)
    ensures var ts := Duel.AfterRounds(Duel.Initial(seats), rounds).transfers;
            |ts| <= 1 && (ts != [] ==> ts[0].loser == Duel.Other(ts[0].winner))
  {
    Duel.DuelOutcome(seats, rounds);
  }

  // Both players are listed, with these ratings.
  predicate Rated(board: map<Username, Entry>, players: Players, elo1: int, elo2: int) {
    && players.first != players.second && players.first in board && players.second in board
    && board[players.first].elo == elo1 && board[players.second].elo == elo2
  }

  // The points the first player of a duel gains, told from its first deciding message alone.
  function Gain(g: real, elo1: int, elo2: int, events: seq<Duel.Event>): int
    requires g > 1.0
  {
    var k := Duel.FirstDecision(events);
    if k == |events| || events[k].message == Duel.Disconnect then 0
    else
      var solved := events[k].message == Duel.Submit(true, true);
      if (events[k].player == Duel.P1) == solved then Delta(g, elo1, elo2) else -Delta(g, elo2, elo1)
  }

  // The ratings after a duel in which the first player has gained so many points from the second.
  predicate Moved(board: map<Username, Entry>, after: map<Username, Entry>, players: Players, elo1: int, elo2: int,
      gain: int) {
    && after.Keys == board.Keys && Rated(after, players, elo1 + gain, elo2 - gain)
    && forall name :: name in board && name != players.first && name != players.second ==> after[name] == board[name]
  }

  lemma NoTransfer(g: real, board: map<Username, Entry>, players: Players, elo1: int, elo2: int)
    requires g > 1.0 && Rated(board, players, elo1, elo2)
    ensures Moved(board, Settled(g, board, players, []), players, elo1, elo2, 0)
  {
  }

  lemma OneTransfer(g: real, board: map<Username, Entry>, players: Players, elo1: int, elo2: int, winner: Duel.Player)
    requires g > 1.0 && Rated(board, players, elo1, elo2)
    ensures Moved(board, Settled(g, board, players, [Duel.Transfer(winner, Duel.Other(winner))]), players, elo1, elo2,
                  if winner == Duel.P1 then Delta(g, elo1, elo2) else -Delta(g, elo2, elo1))
  {
    hide Delta;
    var ts := [Duel.Transfer(winner, Duel.Other(winner))];
    assert ts[1..] == [];
    assert Settled(g, board, players, ts)
           == AfterTransfer(g, board, players.Name(winner), players.Name(Duel.Other(winner)));
  }

  // A whole duel between two listed players: the solver, or the opponent of a forfeiter, gains what the other loses;
  // nobody gains or loses when the duel is undecided or ends by a disconnect; everybody else's rating stays.
  lemma DuelMovesPoints(g: real, board: map<Username, Entry>, players: Players, elo1: int, elo2: int,
                        seats: Duel.Seating, rounds: seq<Duel.Round>)
    requires g > 1.0 && Rated(board, players, elo1, elo2)
    ensures var after := Settled(g, board, players, Duel.Outcome(seats, Duel.Events(rounds)).transfers);
            Moved(board, after, players, elo1, elo2, Gain(g, elo1, elo2, Duel.Events(rounds)))
    ensures var gain := Gain(g, elo1, elo2, Duel.Events(rounds)); gain <= K_FACTOR && -gain <= K_FACTOR
  {
    hide Duel.Events, Delta, Settled, Moved, Rated;
    DeltaBounds(g, elo1, elo2);
    DeltaBounds(g, elo2, elo1);
    var events := Duel.Events(rounds);
    var k := Duel.FirstDecision(events);
    Duel.FirstDecides(events);
    NoTransfer(g, board, players, elo1, elo2);
    if k < |events| {
      var solved := events[k].message == Duel.Submit(true, true);
      OneTransfer(g, board, players, elo1, elo2, if solved then events[k].player else Duel.Other(events[k].player));
    }
  }

  // The same from the messages: whoever is the first to solve the problem takes points from the opponent, whoever is
  // the first to forfeit pays them, as many as the two ratings give; a player who hangs up first moves none. What is
  // read before or behind makes no difference.
  lemma NextMessageSettles(g: real, board: map<Username, Entry>, players: Players, seats: Duel.Seating,
                           before: seq<Duel.Event>, p: Duel.Player, m: Duel.Message, behind: seq<Duel.Event>)
    requires g > 1.0 && players.first != players.second && players.first in board && players.second in board
    requires Duel.AfterEvents(Duel.Initial(seats), before).decided == 0
    ensures var events := before + [Duel.Event(p, m)] + behind;
            var after := Settled(g, board, players, Duel.AfterEvents(Duel.Initial(seats), events).transfers);
            var name := if p == Duel.P1 then players.first else players.second;
            var opponent := if p == Duel.P1 then players.second else players.first;
            match m
            case Submit(true, true) => Transferred(g, board, after, name, opponent)
            case Forfeit => Transferred(g, board, after, opponent, name)
            case Disconnect => after == board
            case _ => true
  {
    hide Duel.AfterEvents, Transferred, AfterTransfer;
    Duel.NextMessageDecides(seats, before, p, m, behind);
    var ts := Duel.AfterEvents(Duel.Initial(seats), before + [Duel.Event(p, m)] + behind).transfers;
    if m == Duel.Forfeit || m == Duel.Submit(true, true) {
      TransferMovesPoints(g, board, players.Name(ts[0].winner), players.Name(ts[0].loser));
      assert ts[1..] == [];
    }
  }
}
