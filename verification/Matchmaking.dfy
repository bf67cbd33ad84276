// From challenges to duels: which duels a run of requests, withdrawals and duel messages starts, that every rating
// transfer goes back to a challenge and its answer, and when one player can be in two duels at once.
module Matchmaking {
  import opened Bytes
  import opened Challenges
  import Duel

  // A duel, by the position of the request that was answered with MATCH_FOUND. The requester is player 1.
  datatype Match = Match(found: nat, first: string, second: string, state: Duel.State) {
    function Seats(): Duel.Seating {
      Duel.Seating(true, true, first == second)
    }

    // The player has not left yet; until then the player's client thread waits.
    predicate Holds(name: string) {
      (first == name && state.in1) || (second == name && state.in2)
    }
  }

  datatype Hall = Hall(events: seq<Event>, duels: seq<Match>)

  datatype Action =
    | Ask(event: Event)
    | Hear(k: nat, heard: Duel.Event)

  // Whether a request made after these events is matched.
  predicate Matches(events: seq<Event>, e: Event) {
    e.Request? && RequestOutcome(PendingAfter(events), e.c) == MatchFound
  }

  function Step(h: Hall, a: Action): Hall {
    match a
    case Ask(e) =>
      var started :=
        if Matches(h.events, e) then
          [Match(|h.events|, e.c.challenger, e.c.target,
                 Duel.Initial(Duel.Seating(true, true, e.c.challenger == e.c.target)))]
        else [];
      Hall(h.events + [e], h.duels + started)
    case Hear(k, event) =>
      if k < |h.duels| then
        var d := h.duels[k];
        h.(duels := h.duels[k := d.(state := Duel.AfterEvent(d.state, event.player, event.message))])
      else h
  }

  function After(actions: seq<Action>): Hall {
    if actions == [] then Hall([], []) else Step(After(actions[..|actions| - 1]), actions[|actions| - 1])
  }

  // ----- Every duel, and so every transfer, goes back to a match -----

  ghost predicate Founded(events: seq<Event>, d: Match) {
    && d.found < |events| && events[d.found] == Request(Challenge(d.first, d.second))
    && Matches(events[..d.found], events[d.found])
    && Duel.Safe(d.Seats(), d.state)
  }

  ghost predicate HasDuel(duels: seq<Match>, i: nat) {
    exists k :: 0 <= k < |duels| && duels[k].found == i
  }

  // The duels are exactly the matches, in the order in which they were found.
  ghost predicate Orderly(h: Hall) {
    && (forall k :: 0 <= k < |h.duels| ==> Founded(h.events, h.duels[k]))
    && (forall k, l :: 0 <= k < l < |h.duels| ==> h.duels[k].found < h.duels[l].found)
    && (forall i :: 0 <= i < |h.events| && Matches(h.events[..i], h.events[i]) ==> HasDuel(h.duels, i))
  }

  lemma FoundedStays(events: seq<Event>, d: Match, e: Event)
    requires Founded(events, d)
    ensures Founded(events + [e], d)
  {
    assert (events + [e])[..d.found] == events[..d.found];
  }

  lemma AskKeeps(h: Hall, e: Event)
    requires Orderly(h)
    ensures Orderly(Step(h, Ask(e)))
  {
    AskFounds(h, e);
    AskMisses(h, e);
    hide Matches, Founded, HasDuel;
    var h' := Step(h, Ask(e));
    forall k, l | 0 <= k < l < |h'.duels| ensures h'.duels[k].found < h'.duels[l].found {
      assert h'.duels[k] == h.duels[k];
      assert Founded(h'.events, h'.duels[k]);
      if l == |h.duels| {
        FoundBefore(h.events, h.duels[k]);
      }
    }
  }

  lemma FoundBefore(events: seq<Event>, d: Match)
    requires Founded(events, d)
    ensures d.found < |events|
  {
  }

  lemma AskFounds(h: Hall, e: Event)
    requires Orderly(h)
    ensures var h' := Step(h, Ask(e)); forall k :: 0 <= k < |h'.duels| ==> Founded(h'.events, h'.duels[k])
  {
    hide Matches, Founded, HasDuel;
    var h' := Step(h, Ask(e));
    forall k | 0 <= k < |h'.duels| ensures Founded(h'.events, h'.duels[k]) {
      if k < |h.duels| {
        FoundedStays(h.events, h.duels[k], e);
      } else {
        NewlyFounded(h, e);
      }
    }
  }

  lemma AskMisses(h: Hall, e: Event)
    requires Orderly(h)
    ensures var h' := Step(h, Ask(e));
            forall i :: 0 <= i < |h'.events| && Matches(h'.events[..i], h'.events[i]) ==> HasDuel(h'.duels, i)
  {
    hide Matches, Founded;
    var h' := Step(h, Ask(e));
    forall i | 0 <= i < |h'.events| && Matches(h'.events[..i], h'.events[i]) ensures HasDuel(h'.duels, i) {
      if i < |h.events| {
        assert h'.events[..i] == h.events[..i];
        var k :| 0 <= k < |h.duels| && h.duels[k].found == i;
        assert h'.duels[k].found == i;
      } else {
        assert h'.events[..i] == h.events;
        assert h'.duels[|h.duels|].found == i;
      }
    }
  }

  lemma NewlyFounded(h: Hall, e: Event)
    requires Matches(h.events, e)
    ensures var h' := Step(h, Ask(e)); Founded(h'.events, h'.duels[|h.duels|])
  {
    assert (h.events + [e])[..|h.events|] == h.events;
  }

  lemma HearFounds(events: seq<Event>, d: Match, event: Duel.Event)
    requires Founded(events, d)
    ensures Founded(events, d.(state := Duel.AfterEvent(d.state, event.player, event.message)))
  {
    Duel.EventKeepsSafe(d.Seats(), d.state, event.player, event.message);
    hide Matches, Duel.Safe, Duel.AfterEvent;
  }

  lemma HearKeeps(h: Hall, k: nat, event: Duel.Event)
    requires Orderly(h)
    ensures Orderly(Step(h, Hear(k, event)))
  {
    hide Matches, Founded, Duel.AfterEvent;
    if k < |h.duels| {
      assert Founded(h.events, h.duels[k]);
      HearFounds(h.events, h.duels[k], event);
      var h' := Step(h, Hear(k, event));
      forall i | HasDuel(h.duels, i) ensures HasDuel(h'.duels, i) {
        var l :| 0 <= l < |h.duels| && h.duels[l].found == i;
        assert h'.duels[l].found == i;
      }
      hide HasDuel;
    }
  }

  // In every run the duels are exactly the matches, each a safe duel of its two players.
  lemma {:induction false} RunIsOrderly(actions: seq<Action>)
    ensures Orderly(After(actions))
  {
    if actions != [] {
      var n := |actions| - 1;
      hide Orderly, Step;
      RunIsOrderly(actions[..n]);
      match actions[n] {
        case Ask(e) => AskKeeps(After(actions[..n]), e);
        case Hear(k, event) => HearKeeps(After(actions[..n]), k, event);
      }
    }
  }

  // Every duel of a run makes at most one transfer, and goes back to one queued challenge: the opposite of the request
  // that found the match, queued before it, never withdrawn, and used by no other duel.
  lemma DuelsAreAskedFor(actions: seq<Action>, k: nat) returns (ticket: nat)
    requires k < |After(actions).duels|
    ensures var h := After(actions); var d := h.duels[k]; var history := Run(h.events);
            && |d.state.transfers| <= 1
            && Queued(h.events, history.outcomes, ticket, Challenge(d.second, d.first)) && ticket < d.found
            && d.found < |history.outcomes| && history.outcomes[d.found] == Some(MatchFound)
            && ticket in history.matched && history.matched[ticket] == d.found && ticket !in history.withdrawn
            && (forall l :: 0 <= l < |h.duels| && h.duels[l].found == d.found ==> l == k)
  {
    var h := After(actions);
    var d := h.duels[k];
    RunIsOrderly(actions);
    HistoryIsJustified(h.events);
    assert Founded(h.events, d);
    AnswersAreFaithful(h.events, d.found);
    var history := Run(h.events);
    hide After, Run, Duel.AfterEvent, RequestOutcome;
    assert d.found in history.matched.Values;
    ticket :| ticket in history.matched && history.matched[ticket] == d.found;
  }

  // ----- One player in two duels -----

  predicate Busy(h: Hall, name: string) {
    exists k :: 0 <= k < |h.duels| && h.duels[k].Holds(name)
  }

  // Nobody is in two duels at once.
  ghost predicate OneDuelEach(h: Hall) {
    forall k, l, name: string :: 0 <= k < l < |h.duels| ==> !(h.duels[k].Holds(name) && h.duels[l].Holds(name))
  }

  // A challenge that was left pending when its challenger went into a duel, and that another player can still answer.
  ghost predicate Stale(h: Hall, c: Challenge) {
    c in PendingAfter(h.events) && Busy(h, c.challenger) && !Busy(h, c.target)
  }

  // A request of a player who is in no duel that puts somebody into a second one.
  ghost predicate Doubles(h: Hall, c: Challenge) {
    !Busy(h, c.challenger) && !OneDuelEach(Step(h, Ask(Request(c))))
  }

  lemma PendingIsFound(pending: seq<Challenge>, c: Challenge)
    requires Opposite(c) in pending
    ensures RequestOutcome(pending, c) == MatchFound
  {
  }

  lemma FoundIsPending(pending: seq<Challenge>, c: Challenge)
    requires RequestOutcome(pending, c) == MatchFound
    ensures Opposite(c) in pending
  {
  }

  // A player who is in no duel can make a request that puts somebody into a second duel if and only if a stale
  // challenge is pending.
  lemma SecondDuelExactly(h: Hall)
    requires OneDuelEach(h)
    ensures (exists c :: Doubles(h, c)) <==> (exists c :: Stale(h, c))
  {
    hide RequestOutcome, PendingAfter;
    if c :| Stale(h, c) {
      StaleIsDangerous(h, c);
    }
    if c :| Doubles(h, c) {
      DangerIsStale(h, c);
    }
  }

  lemma StaleIsDangerous(h: Hall, c: Challenge)
    requires Stale(h, c)
    ensures Doubles(h, Opposite(c))
  {
    PendingIsFound(PendingAfter(h.events), Opposite(c));
    hide RequestOutcome, PendingAfter;
    var h' := Step(h, Ask(Request(Opposite(c))));
    var k :| 0 <= k < |h.duels| && h.duels[k].Holds(c.challenger);
    assert h'.duels[k].Holds(c.challenger) && h'.duels[|h.duels|].Holds(c.challenger);
  }

  lemma DangerIsStale(h: Hall, c: Challenge)
    requires OneDuelEach(h) && Doubles(h, c)
    ensures Stale(h, Opposite(c))
  {
    hide RequestOutcome, PendingAfter;
    var h' := Step(h, Ask(Request(c)));
    var k, l, name: string :| 0 <= k < l < |h'.duels| && h'.duels[k].Holds(name) && h'.duels[l].Holds(name);
    if l < |h.duels| {
      assert false;
    }
    assert l == |h.duels| && h.duels[k].Holds(name);
    FoundIsPending(PendingAfter(h.events), c);
  }

  // Listening to a duel puts nobody into another one.
  lemma HearKeepsSingle(h: Hall, k: nat, event: Duel.Event)
    requires OneDuelEach(h)
    ensures OneDuelEach(Step(h, Hear(k, event)))
  {
    var h' := Step(h, Hear(k, event));
    forall i, name: string | 0 <= i < |h.duels| && h'.duels[i].Holds(name) ensures h.duels[i].Holds(name) {
    }
    hide Match.Holds, Step;
    assert |h'.duels| == |h.duels|;
  }

  // A run in which only players who are in no duel make requests (the others' threads wait), and in which no stale
  // challenge is pending when a request is made, never puts a player into two duels.
  ghost predicate Careful(h: Hall, a: Action) {
    a.Ask? && a.event.Request? ==> !Busy(h, a.event.c.challenger) && forall c :: !Stale(h, c)
  }

  lemma {:induction false} CarefulRunsStaySingle(actions: seq<Action>)
    requires forall i :: 0 <= i < |actions| ==> Careful(After(actions[..i]), actions[i])
    ensures OneDuelEach(After(actions))
  {
    if actions != [] {
      var n := |actions| - 1;
      forall i | 0 <= i < n ensures Careful(After(actions[..n][..i]), actions[..n][i]) {
        assert actions[..n][..i] == actions[..i];
        assert Careful(After(actions[..i]), actions[i]);
      }
      CarefulRunsStaySingle(actions[..n]);
      var h := After(actions[..n]);
      assert Careful(h, actions[n]);
      CarefulStep(h, actions[n]);
    }
  }

  lemma CarefulStep(h: Hall, a: Action)
    requires OneDuelEach(h) && Careful(h, a)
    ensures OneDuelEach(Step(h, a))
  {
    match a {
      case Hear(k, event) => HearKeepsSingle(h, k, event);
      case Ask(Withdraw(_)) => assert Step(h, a).duels == h.duels;
      case Ask(Request(c)) =>
        hide Step, OneDuelEach, Stale;
        if !OneDuelEach(Step(h, a)) {
          DangerIsStale(h, c);
        }
    }
  }

  // Such a state is reached: a challenges b and c, b answers, and a's challenge to c stays pending.
  lemma StaleIsReached(a: string, b: string, c: string)
    requires a != b && a != c && b != c
    ensures var actions := [Ask(Request(Challenge(a, b))), Ask(Request(Challenge(a, c))),
        Ask(Request(Challenge(b, a)))];
            OneDuelEach(After(actions)) && Stale(After(actions), Challenge(a, c))
  {
    var ab, ac, ba := Challenge(a, b), Challenge(a, c), Challenge(b, a);
    ThreeRequests(ab, ac, ba);
    ThreeActions(Ask(Request(ab)), Ask(Request(ac)), Ask(Request(ba)));
    FirstDuel(ab, ac, ba);
    hide PendingAfter, RequestOutcome, After, Step;
    SingleDuel(After([Ask(Request(ab)), Ask(Request(ac)), Ask(Request(ba))]));
    assert [ac][0] == ac;
  }

  // Steps from the empty hall: two queued requests and a match.
  lemma FirstDuel(c1: Challenge, c2: Challenge, c3: Challenge)
    requires RequestOutcome(PendingAfter([]), c1) == AddedToQueue
    requires RequestOutcome(PendingAfter([Request(c1)]), c2) == AddedToQueue
    requires RequestOutcome(PendingAfter([Request(c1), Request(c2)]), c3) == MatchFound
    ensures var h := Step(Step(Step(Hall([], []), Ask(Request(c1))), Ask(Request(c2))), Ask(Request(c3)));
            && h.events == [Request(c1), Request(c2), Request(c3)] && |h.duels| == 1
            && h.duels[0].Holds(c3.challenger) && h.duels[0].Holds(c3.target)
            && (forall name: string :: h.duels[0].Holds(name) ==> name == c3.challenger || name == c3.target)
  {
    hide PendingAfter, RequestOutcome;
    assert [] + [Request(c1)] == [Request(c1)] && [Request(c1)] + [Request(c2)] == [Request(c1), Request(c2)];
    assert Step(Hall([], []), Ask(Request(c1))) == Hall([Request(c1)], []);
    assert Step(Hall([Request(c1)], []), Ask(Request(c2))) == Hall([Request(c1), Request(c2)], []);
  }

  lemma SingleDuel(h: Hall)
    requires |h.duels| == 1
    ensures OneDuelEach(h) && forall name: string :: Busy(h, name) <==> h.duels[0].Holds(name)
  {
  }

  lemma ThreeActions(a1: Action, a2: Action, a3: Action)
    ensures After([a1, a2, a3]) == Step(Step(Step(Hall([], []), a1), a2), a3)
  {
    hide Step;
    var actions := [a1, a2, a3];
    assert actions[..2] == [a1, a2] && [a1, a2][..1] == [a1] && [a1][..0] == [];
    assert After([a1]) == Step(After([]), a1);
    assert After([a1, a2]) == Step(After([a1]), a2);
  }

  lemma OneMoreRequest(events: seq<Event>, c: Challenge)
    ensures PendingAfter(events + [Request(c)]) == AfterRequest(PendingAfter(events), c)
  {
    hide AfterRequest;
    assert (events + [Request(c)])[..|events|] == events;
  }

  // The first two requests are queued, and the third is matched with the first.
  lemma ThreeRequests(c1: Challenge, c2: Challenge, c3: Challenge)
    requires c3 == Opposite(c1) && c1 != c3 && c2 != Opposite(c1) && c2 != Opposite(c2)
    ensures PendingAfter([]) == [] && RequestOutcome([], c1) == AddedToQueue
    ensures PendingAfter([Request(c1)]) == [c1] && RequestOutcome([c1], c2) == AddedToQueue
    ensures PendingAfter([Request(c1), Request(c2)]) == [c1, c2] && RequestOutcome([c1, c2], c3) == MatchFound
    ensures PendingAfter([Request(c1), Request(c2), Request(c3)]) == [c2]
  {
    OneMoreRequest([], c1);
    OneMoreRequest([Request(c1)], c2);
    OneMoreRequest([Request(c1), Request(c2)], c3);
    assert PendingAfter([]) == [];
    hide PendingAfter;
    assert [] + [Request(c1)] == [Request(c1)] && [Request(c1)] + [Request(c2)] == [Request(c1), Request(c2)];
    assert [Request(c1), Request(c2)] + [Request(c3)] == [Request(c1), Request(c2), Request(c3)];
    assert [c1] + [c2] == [c1, c2] && [c1][1..] == [];
    assert IndexOf([c1, c2], c1) == 0 && SwapRemove([c1, c2], 0) == [c2];
  }
}
