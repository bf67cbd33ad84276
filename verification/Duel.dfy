// The duel loop: two players, one decision, at most one rating transfer.
module Duel {
  import opened Bytes

  datatype Player = P1 | P2

  function Other(p: Player): (other: Player)
    ensures other != p
  {
    if p == P1 then P2 else P1
  }

  // What reading a player's socket yields. A submission may fail to arrive; `accepted` is what the comparison of the
  // verdict buffer finds, which is anything at all if a pipe failed and nobody has written that buffer.
  datatype Message =
    | Disconnect
    | Malformed
    | ViewStatement
    | Submit(received: bool, accepted: bool)
    | Forfeit
    | UnknownOperation

  // updateDuelElos(winner, loser)
  datatype Transfer = Transfer(winner: Player, loser: Player)

  // What one return from select reports.
  datatype Round =
    | Interrupted
    | SelectFailed
    | Ready(first: Option<Message>, second: Option<Message>)

  // Messages that take their sender out of the duel.
  predicate Decides(m: Message) {
    m == Disconnect || m == Submit(true, true) || m == Forfeit
  }

  // Who gains from whom when player p sends a deciding message.
  function TransferFor(p: Player, m: Message): seq<Transfer> {
    if m == Submit(true, true) then [Transfer(p, Other(p))]
    else if m == Forfeit then [Transfer(Other(p), p)]
    else []
  }

  datatype Phase = Running | Finished | Broken

  // Which of the two players are logged in, and whether they are one user, who has accepted a challenge of their own.
  datatype Seating = Seating(active1: bool, active2: bool, same: bool) {
    predicate Active(p: Player) {
      if p == P1 then active1 else active2
    }
  }

  // Who is in, the value of duelWinner, whose duelRequest flag is set (a user in both seats has one flag), and the
  // transfers made so far.
  datatype State = State(in1: bool, in2: bool, decided: int, flag1: bool, flag2: bool, same: bool,
                         transfers: seq<Transfer>) {
    predicate In(p: Player) {
      if p == P1 then in1 else in2
    }

    function Leave(p: Player): State {
      if p == P1 then this.(in1 := false, flag1 := false, flag2 := flag2 && !same)
      else this.(in2 := false, flag2 := false, flag1 := flag1 && !same)
    }

    predicate BothOut() {
      !in1 && !in2
    }
  }

  // ----- The loop -----

  class User {
    var duelRequest: bool

    constructor ()
      ensures !duelRequest
    {
      duelRequest := false;
    }
  }

  // setDuelState; a user who is not logged in is null.
  method SetDuelState(user: User?, state: bool)
    modifies user
    ensures user != null ==> user.duelRequest == state
  {
    if user != null {
      user.duelRequest := state;
    }
  }

  class Arena {
    var p1InDuel: bool
    var p2InDuel: bool
    var duelWinner: int
    // the users of the two seats, possibly the same object
    const player1: User?
    const player2: User?
    // the updateDuelElos calls made so far
    var transfers: seq<Transfer>

    constructor (player1: User?, player2: User?)
      ensures this.player1 == player1 && this.player2 == player2 && transfers == []
    {
      p1InDuel, p2InDuel, duelWinner, transfers := false, false, 0, [];
      this.player1, this.player2 := player1, player2;
    }

    function Seats(): Seating {
      Seating(player1 != null, player2 != null, player1 != null && player1 == player2)
    }

    function View(): State
      reads this, player1, player2
    {
      State(p1InDuel, p2InDuel, duelWinner,
            player1 != null && player1.duelRequest, player2 != null && player2.duelRequest, Seats().same, transfers)
    }

    // handleDuelSocketMessage: 0 takes the player out of the duel.
    method HandleMessage(player: Player, m: Message) returns (result: int)
      modifies `transfers
      ensures result == if Decides(m) then 0 else 1
      ensures result == 0 <==> m.Disconnect? || m.Forfeit? || (m.Submit? && m.received && m.accepted)
      ensures transfers == old(transfers) + TransferFor(player, m)
      // a solver gains from the opponent, a forfeiter pays the opponent, and no other message moves ratings
      ensures m.Submit? && m.received && m.accepted ==>
          transfers == old(transfers) + [Transfer(player, Other(player))]
      ensures m.Forfeit? ==> transfers == old(transfers) + [Transfer(Other(player), player)]
      ensures !m.Forfeit? && !(m.Submit? && m.received && m.accepted) ==> transfers == old(transfers)
    {
      match m {
        case Disconnect =>
          return 0;
        case Malformed =>
          return 1;
        case ViewStatement =>
          return 1;
        case Submit(received, accepted) =>
          if !received {
            return 1;
          }
          if accepted {
            transfers := transfers + [Transfer(player, Other(player))];
            return 0;
          }
          return 1;
        case Forfeit =>
          transfers := transfers + [Transfer(Other(player), player)];
          return 0;
        case UnknownOperation =>
          return 1;
      }
    }

    // startDuel for a given sequence of select results; it stops early when the results run out. Without a visible
    // problem the duel ends before it starts.
    method StartDuel(problemFound: bool, rounds: seq<Round>) returns (phase: Phase)
      requires transfers == []
      modifies this, player1, player2
      ensures problemFound ==> View() == AfterRounds(Initial(Seats()), rounds)
      ensures problemFound ==>
          phase == if View().BothOut() then Finished else if SelectFailed in rounds then Broken else Running
      ensures !problemFound ==> phase == Finished && !View().flag1 && !View().flag2 && transfers == []
    {
      SetDuelState(player1, true);
      SetDuelState(player2, true);
      if !problemFound {
        SetDuelState(player1, false);
        SetDuelState(player2, false);
        return Finished;
      }
      p1InDuel := true;
      p2InDuel := true;
      duelWinner := 0;
      var i := 0;
      while (p1InDuel || p2InDuel) && i < |rounds|
        invariant 0 <= i <= |rounds|
        invariant AfterRounds(Initial(Seats()), rounds) == AfterRounds(View(), rounds[i..])
        invariant SelectFailed !in rounds[..i]
        decreases |rounds| - i
      {
        assert rounds[i..][1..] == rounds[i + 1..] && rounds[..i + 1] == rounds[..i] + [rounds[i]];
        match rounds[i] {
          case Interrupted =>
          case SelectFailed =>
            return Broken;
          case Ready(first, second) =>
            ServePlayer1(first);
            ServePlayer2(second);
        }
        i := i + 1;
      }
      if View().BothOut() {
        OutIsFinal(View(), rounds[i..]);
        phase := Finished;
      } else {
        assert rounds[..i] == rounds && rounds[i..] == [];
        phase := Running;
      }
    }

    method ServePlayer1(m: Option<Message>)
      modifies this, player1, player2
      ensures View() == AfterMessage(old(View()), P1, m)
    {
      if p1InDuel && m.Some? {
        if duelWinner != 0 {
          p1InDuel := false;
          SetDuelState(player1, false);
        } else {
          var res := HandleMessage(P1, m.value);
          if res == 0 {
            p1InDuel := false;
            duelWinner := 1;
            SetDuelState(player1, false);
          }
        }
      }
    }

    method ServePlayer2(m: Option<Message>)
      modifies this, player1, player2
      ensures View() == AfterMessage(old(View()), P2, m)
    {
      if p2InDuel && m.Some? {
        if duelWinner != 0 {
          p2InDuel := false;
          SetDuelState(player2, false);
        } else {
          var res := HandleMessage(P2, m.value);
          if res == 0 {
            p2InDuel := false;
            duelWinner := 2;
            SetDuelState(player2, false);
          }
        }
      }
    }
  }

  // ----- The loop as a function of the rounds -----

  function Initial(seats: Seating): State {
    State(true, true, 0, seats.active1, seats.active2, seats.same, [])
  }

  function Number(p: Player): int {
    if p == P1 then 1 else 2
  }

  // One event of one player.
  function AfterEvent(s: State, p: Player, m: Message): State {
    if !s.In(p) then s
    else if s.decided != 0 then s.Leave(p)
    else if Decides(m) then s.Leave(p).(decided := Number(p), transfers := s.transfers + TransferFor(p, m))
    else s.(transfers := s.transfers + TransferFor(p, m))
  }

  function AfterMessage(s: State, p: Player, m: Option<Message>): State {
    if m.Some? then AfterEvent(s, p, m.value) else s
  }

  // The loop ends at a failed select, or when both players are out; player 1 is served first.
  function AfterRounds(s: State, rounds: seq<Round>): State
    decreases |rounds|
  {
    if rounds == [] || s.BothOut() then s
    else
      match rounds[0]
      case Interrupted => AfterRounds(s, rounds[1..])
      case SelectFailed => s
      case Ready(first, second) => AfterRounds(AfterMessage(AfterMessage(s, P1, first), P2, second), rounds[1..])
  }

  lemma OutIsFinal(s: State, rounds: seq<Round>)
    requires s.BothOut()
    ensures AfterRounds(s, rounds) == s
  {
  }

  // ----- What every run keeps -----

  // A flag is set exactly while its player is logged in and in the duel; the one flag of a user in both seats is
  // cleared as soon as one seat is left.
  ghost predicate Safe(seats: Seating, s: State) {
    && s.decided in {0, 1, 2} && s.same == seats.same
    && (s.decided == 0 <==> s.in1 && s.in2)
    && (s.decided == 0 ==> s.transfers == [])
    && |s.transfers| <= 1
    && s.flag1 == (seats.active1 && s.in1 && (seats.same ==> s.in2))
    && s.flag2 == (seats.active2 && s.in2 && (seats.same ==> s.in1))
  }

  lemma EventKeepsSafe(seats: Seating, s: State, p: Player, m: Message)
    requires Safe(seats, s)
    ensures Safe(seats, AfterEvent(s, p, m))
    ensures s.decided != 0 ==> AfterEvent(s, p, m).transfers == s.transfers
    ensures s.decided != 0 && s.In(p) ==> AfterEvent(s, p, m).BothOut()
  {
  }

  lemma {:induction false} RunIsSafeFrom(seats: Seating, s: State, rounds: seq<Round>)
    requires Safe(seats, s)
    ensures Safe(seats, AfterRounds(s, rounds))
    decreases |rounds|
  {
    if rounds != [] && !s.BothOut() {
      match rounds[0] {
        case Interrupted => RunIsSafeFrom(seats, s, rounds[1..]);
        case SelectFailed =>
        case Ready(first, second) =>
          var s1 := AfterMessage(s, P1, first);
          if first.Some? {
            EventKeepsSafe(seats, s, P1, first.value);
          }
          if second.Some? {
            EventKeepsSafe(seats, s1, P2, second.value);
          }
          RunIsSafeFrom(seats, AfterMessage(s1, P2, second), rounds[1..]);
      }
    }
  }

  // In every run: undecided exactly while both players are in, at most one transfer, and the flags say who is in, so
  // both have been released when the loop condition ends the loop.
  lemma DuelIsSafe(seats: Seating, rounds: seq<Round>)
    ensures var s := AfterRounds(Initial(seats), rounds);
            Safe(seats, s) && (s.BothOut() ==> !s.flag1 && !s.flag2)
  {
    RunIsSafeFrom(seats, Initial(seats), rounds);
  }

  // ----- What exactly happens -----

  datatype Event = Event(player: Player, message: Message)

  // Every message the rounds deliver, in the order the loop reads them, up to a failed select.
  function Events(rounds: seq<Round>): seq<Event> {
    if rounds == [] then []
    else
      match rounds[0]
      case Interrupted => Events(rounds[1..])
      case SelectFailed => []
      case Ready(first, second) =>
        Heard(P1, first) + (Heard(P2, second) + Events(rounds[1..]))
  }

  function Heard(p: Player, m: Option<Message>): seq<Event> {
    if m.Some? then [Event(p, m.value)] else []
  }

  function AfterEvents(s: State, events: seq<Event>): State
    decreases |events|
  {
    if events == [] then s else AfterEvents(AfterEvent(s, events[0].player, events[0].message), events[1..])
  }

  lemma {:induction false} OutIgnoresEvents(s: State, events: seq<Event>)
    requires s.BothOut()
    ensures AfterEvents(s, events) == s
    decreases |events|
  {
    if events != [] {
      OutIgnoresEvents(s, events[1..]);
    }
  }

  // How messages are grouped into rounds does not matter.
  lemma {:induction false} RoundsAreEvents(s: State, rounds: seq<Round>)
    ensures AfterRounds(s, rounds) == AfterEvents(s, Events(rounds))
    decreases |rounds|
  {
    hide AfterMessage, AfterEvent, Heard, AfterEvents;
    NoEvents(s);
    if s.BothOut() {
      OutIgnoresEvents(s, Events(rounds));
    } else if rounds != [] {
      match rounds[0] {
        case Interrupted => RoundsAreEvents(s, rounds[1..]);
        case SelectFailed =>
        case Ready(first, second) =>
          var s1 := AfterMessage(s, P1, first);
          HeardNext(s, P1, first, Heard(P2, second) + Events(rounds[1..]));
          HeardNext(s1, P2, second, Events(rounds[1..]));
          RoundsAreEvents(AfterMessage(s1, P2, second), rounds[1..]);
      }
    }
  }

  lemma NoEvents(s: State)
    ensures AfterEvents(s, []) == s
  {
  }

  lemma HeardNext(s: State, p: Player, m: Option<Message>, rest: seq<Event>)
    ensures AfterEvents(s, Heard(p, m) + rest) == AfterEvents(AfterMessage(s, p, m), rest)
  {
    hide AfterEvent;
    if m.Some? {
      assert ([Event(p, m.value)] + rest)[1..] == rest;
    } else {
      assert [] + rest == rest;
    }
  }

  // Position of the first deciding message, or the length.
  function FirstDecision(events: seq<Event>): (k: nat)
    ensures k <= |events|
  {
    if events == [] || Decides(events[0].message) then 0 else 1 + FirstDecision(events[1..])
  }

  lemma {:induction false} FirstDecides(events: seq<Event>)
    ensures var k := FirstDecision(events);
            && (k < |events| ==> Decides(events[k].message))
            && (forall i :: 0 <= i < k ==> !Decides(events[i].message))
  {
    if events != [] && !Decides(events[0].message) {
      FirstDecides(events[1..]);
    }
  }

  predicate Hears(events: seq<Event>, p: Player) {
    exists i :: 0 <= i < |events| && events[i].player == p
  }

  // The outcome of a duel, told from the first deciding message alone: its sender is out and named by the flag
  // `duelWinner` (even when the sender forfeited or disconnected); the ratings move from the opponent to an accepted
  // solver or from a forfeiter to the opponent, and not at all on a disconnect; the other player is out as soon as
  // anything more is read from that player.
  function Outcome(seats: Seating, events: seq<Event>): State {
    var k := FirstDecision(events);
    if k == |events| then Initial(seats)
    else
      var p, m := events[k].player, events[k].message;
      var decided := Initial(seats).Leave(p).(decided := Number(p), transfers := TransferFor(p, m));
      if Hears(events[k + 1..], Other(p)) then decided.Leave(Other(p)) else decided
  }

  // The same, message by message. In every run that is undecided, the next message of player p, whatever comes behind
  // it: if p hangs up, p is out with the flag cleared and the duel is decided, and no rating ever moves. If p has
  // solved the problem or forfeits, that is so too, except that one transfer is made, to p or from p. Any other message
  // might as well not have been sent.
  lemma NextMessageDecides(seats: Seating, before: seq<Event>, p: Player, m: Message, behind: seq<Event>)
    requires AfterEvents(Initial(seats), before).decided == 0
    ensures var s := AfterEvents(Initial(seats), before + [Event(p, m)] + behind);
            match m
            case Disconnect => GoneFor(s, p) && s.transfers == []
            case Forfeit => GoneFor(s, p) && s.transfers == [Transfer(if p == P1 then P2 else P1, p)]
            case Submit(true, true) => GoneFor(s, p) && s.transfers == [Transfer(p, if p == P1 then P2 else P1)]
            case _ => s == AfterEvents(Initial(seats), before + behind)
  {
    hide AfterEvents, AfterEvent, Hears;
    UndecidedIsInitial(seats, before);
    EventsConcat(Initial(seats), before, [Event(p, m)] + behind);
    EventsConcat(Initial(seats), before, behind);
    assert before + [Event(p, m)] + behind == before + ([Event(p, m)] + behind);
    OneEventFirst(Initial(seats), p, m, behind);
    DecidingEvent(seats, p, m);
    if Decides(m) {
      DecidedOutcome(AfterEvent(Initial(seats), p, m), p, behind);
    }
  }

  // The player is out, cleared, and named as the one who decided.
  predicate GoneFor(s: State, p: Player) {
    if p == P1 then !s.in1 && !s.flag1 && s.decided == 1 else !s.in2 && !s.flag2 && s.decided == 2
  }

  lemma DecidingEvent(seats: Seating, p: Player, m: Message)
    ensures var s := AfterEvent(Initial(seats), p, m);
            if Decides(m) then
              GoneFor(s, p) && !s.In(p) && s.In(Other(p)) && s.transfers == TransferFor(p, m)
            else s == Initial(seats)
  {
    assert [] + TransferFor(p, m) == TransferFor(p, m);
  }

  lemma UndecidedIsInitial(seats: Seating, events: seq<Event>)
    requires AfterEvents(Initial(seats), events).decided == 0
    ensures AfterEvents(Initial(seats), events) == Initial(seats)
  {
    EventsOutcome(seats, events);
    hide FirstDecision, Hears;
  }

  lemma OneEventFirst(s: State, p: Player, m: Message, behind: seq<Event>)
    ensures AfterEvents(s, [Event(p, m)] + behind) == AfterEvents(AfterEvent(s, p, m), behind)
  {
    hide AfterEvent;
    assert ([Event(p, m)] + behind)[1..] == behind;
  }

  lemma {:induction false} EventsConcat(s: State, a: seq<Event>, b: seq<Event>)
    ensures AfterEvents(s, a + b) == AfterEvents(AfterEvents(s, a), b)
    decreases |a|
  {
    hide AfterEvent;
    if a == [] {
      assert a + b == b;
    } else {
      assert (a + b)[1..] == a[1..] + b;
      EventsConcat(AfterEvent(s, a[0].player, a[0].message), a[1..], b);
    }
  }

  // Of two messages that one select reports, player 1's is read first: if it decides, player 2's is not handled and
  // both are out.
  lemma FirstSeatFirst(seats: Seating, m1: Message, m2: Message, rounds: seq<Round>)
    requires m1.Disconnect? || m1.Forfeit? || m1 == Submit(true, true)
    ensures var s := AfterRounds(Initial(seats), [Ready(Some(m1), Some(m2))] + rounds);
            s.BothOut() && s.decided == 1
            && s.transfers == match m1
                              case Forfeit => [Transfer(P2, P1)]
                              case Submit(_, _) => [Transfer(P1, P2)]
                              case _ => []
  {
    var s := AfterMessage(AfterMessage(Initial(seats), P1, Some(m1)), P2, Some(m2));
    assert [] + TransferFor(P1, m1) == TransferFor(P1, m1);
    assert s.BothOut();
    hide AfterMessage;
    OutIsFinal(s, rounds);
    assert ([Ready(Some(m1), Some(m2))] + rounds)[1..] == rounds;
  }

  // An interrupted select changes nothing; a failed one ends the run where it is.
  lemma {:induction false} SelectResults(s: State, a: seq<Round>, b: seq<Round>)
    ensures AfterRounds(s, a + [Interrupted] + b) == AfterRounds(s, a + b)
    ensures AfterRounds(s, a + [SelectFailed] + b) == AfterRounds(s, a)
    decreases |a|
  {
    hide AfterMessage, AfterRounds;
    if a == [] {
      NextRound(s, Interrupted, b);
      NextRound(s, SelectFailed, b);
      NoRounds(s);
      assert [] + [Interrupted] + b == [Interrupted] + b && [] + [SelectFailed] + b == [SelectFailed] + b;
      assert [] + b == b;
    } else {
      var r, rest := a[0], a[1..];
      NextRound(s, r, rest + [Interrupted] + b);
      NextRound(s, r, rest + [SelectFailed] + b);
      NextRound(s, r, rest + b);
      NextRound(s, r, rest);
      assert a == [r] + rest && a + b == [r] + (rest + b);
      assert a + [Interrupted] + b == [r] + (rest + [Interrupted] + b);
      assert a + [SelectFailed] + b == [r] + (rest + [SelectFailed] + b);
      if r.Ready? {
        SelectResults(AfterMessage(AfterMessage(s, P1, r.first), P2, r.second), rest, b);
      } else {
        SelectResults(s, rest, b);
      }
    }
  }

  lemma NoRounds(s: State)
    ensures AfterRounds(s, []) == s
  {
  }

  lemma NextRound(s: State, r: Round, rest: seq<Round>)
    ensures s.BothOut() ==> AfterRounds(s, [r] + rest) == s == AfterRounds(s, rest)
    ensures AfterRounds(s, [r] + rest)
            == if s.BothOut() || r.SelectFailed? then s
               else if r.Interrupted? then AfterRounds(s, rest)
               else AfterRounds(AfterMessage(AfterMessage(s, P1, r.first), P2, r.second), rest)
  {
    hide AfterMessage;
    assert ([r] + rest)[1..] == rest;
  }

  // Both duelRequest flags are released exactly when somebody sent a deciding message and the other player is heard
  // afterwards, is not logged in, or is the same user. Otherwise, for instance after a failed select, a flag stays set
  // and its user's client thread waits.
  lemma FlagsReleasedExactly(seats: Seating, rounds: seq<Round>)
    ensures var s, events := AfterRounds(Initial(seats), rounds), Events(rounds); var k := FirstDecision(events);
            !s.flag1 && !s.flag2 <==>
              if k == |events| then !seats.active1 && !seats.active2
              else
                var other := Other(events[k].player);
                Hears(events[k + 1..], other) || seats.same || !seats.Active(other)
  {
    DuelOutcome(seats, rounds);
  }

  // A user matched with themselves is released by the first deciding message, whichever it is, while the second seat is
  // still taken: the loop goes on to read the same connection for that seat.
  lemma SameUserLeavesEarly(m: Message)
    requires Decides(m)
    ensures var s := AfterMessage(Initial(Seating(true, true, true)), P1, Some(m));
            !s.flag1 && !s.flag2 && !s.in1 && s.in2 && s.decided == 1
  {
  }

  lemma SelectFailureLeavesFlags()
    ensures var s := AfterRounds(Initial(Seating(true, true, false)),
                                 [Ready(Some(Forfeit), None), SelectFailed, Ready(None, Some(Forfeit))]);
            !s.flag1 && s.flag2 && s.transfers == [Transfer(P2, P1)]
  {
    var rounds := [Ready(Some(Forfeit), None), SelectFailed, Ready(None, Some(Forfeit))];
    assert rounds[1..][0] == SelectFailed;
    assert [] + TransferFor(P1, Forfeit) == [Transfer(P2, P1)];
  }

  lemma DuelOutcome(seats: Seating, rounds: seq<Round>)
    ensures AfterRounds(Initial(seats), rounds) == Outcome(seats, Events(rounds))
  {
    RoundsAreEvents(Initial(seats), rounds);
    EventsOutcome(seats, Events(rounds));
  }

  lemma {:induction false} EventsOutcome(seats: Seating, events: seq<Event>)
    ensures AfterEvents(Initial(seats), events) == Outcome(seats, events)
    decreases |events|
  {
    if events != [] {
      var p, m := events[0].player, events[0].message;
      if Decides(m) {
        assert [] + TransferFor(p, m) == TransferFor(p, m);
        DecidedOutcome(AfterEvent(Initial(seats), p, m), p, events[1..]);
      } else {
        assert AfterEvent(Initial(seats), p, m) == Initial(seats);
        EventsOutcome(seats, events[1..]);
        var k := FirstDecision(events[1..]);
        assert events[1..][k..] == events[k + 1..];
        assert k < |events| - 1 ==> events[1..][k + 1..] == events[k + 2..];
      }
    }
  }

  lemma {:induction false} DecidedOutcome(s: State, p: Player, events: seq<Event>)
    requires !s.In(p) && s.In(Other(p)) && s.decided != 0
    ensures AfterEvents(s, events) == if Hears(events, Other(p)) then s.Leave(Other(p)) else s
    decreases |events|
  {
    if events != [] {
      if events[0].player == p {
        assert AfterEvent(s, p, events[0].message) == s;
        DecidedOutcome(s, p, events[1..]);
        assert Hears(events, Other(p)) == Hears(events[1..], Other(p)) by {
          if i :| 0 <= i < |events| && events[i].player == Other(p) {
            assert events[1..][i - 1].player == Other(p);
          }
          if i :| 0 <= i < |events| - 1 && events[1..][i].player == Other(p) {
            assert events[i + 1].player == Other(p);
          }
        }
      } else {
        assert events[0].player == Other(p);
        OutIgnoresEvents(AfterEvent(s, Other(p), events[0].message), events[1..]);
      }
    }
  }
}
