// Pending duel challenges: a five-slot list with swap-remove, and the history of what is matched with what.
module Challenges {
  import opened Bytes

  datatype Challenge = Challenge(challenger: string, target: string)

  const MAX_CHALLENGES: nat := 5

  datatype Outcome = MatchFound | AddedToQueue | Rejected

  function Opposite(c: Challenge): Challenge {
    Challenge(c.target, c.challenger)
  }

  // ----- What the operations do to the pending list -----

  function IndexOf(pending: seq<Challenge>, c: Challenge): (k: nat)
    ensures k <= |pending| && (k < |pending| ==> pending[k] == c)
    ensures forall i :: 0 <= i < k ==> pending[i] != c
  {
    if pending == [] || pending[0] == c then 0 else 1 + IndexOf(pending[1..], c)
  }

  function IndexFrom(pending: seq<Challenge>, challenger: string): (k: nat)
    ensures k <= |pending| && (k < |pending| ==> pending[k].challenger == challenger)
    ensures forall i :: 0 <= i < k ==> pending[i].challenger != challenger
  {
    if pending == [] || pending[0].challenger == challenger then 0 else 1 + IndexFrom(pending[1..], challenger)
  }

  // The last element takes the place of the removed one.
  function SwapRemove<T>(s: seq<T>, k: nat): (r: seq<T>)
    requires k < |s|
    ensures |r| == |s| - 1
    ensures forall i :: 0 <= i < |r| ==> r[i] == s[if i == k then |s| - 1 else i]
  {
    s[k := s[|s| - 1]][..|s| - 1]
  }

  function RequestOutcome(pending: seq<Challenge>, c: Challenge): Outcome {
    if IndexOf(pending, Opposite(c)) < |pending| then MatchFound
    else if |pending| >= MAX_CHALLENGES then Rejected
    else AddedToQueue
  }

  function AfterRequest(pending: seq<Challenge>, c: Challenge): seq<Challenge> {
    match RequestOutcome(pending, c)
    case MatchFound => SwapRemove(pending, IndexOf(pending, Opposite(c)))
    case AddedToQueue => pending + [c]
    case Rejected => pending
  }

  function AfterWithdraw(pending: seq<Challenge>, challenger: string): seq<Challenge> {
    var k := IndexFrom(pending, challenger);
    if k < |pending| then SwapRemove(pending, k) else pending
  }

  // What becomes of a request, told from the pending challenges alone: an opposite one is taken off and matched; else
  // the request is queued behind at most four others, and rejected when five are pending.
  lemma RequestCases(pending: seq<Challenge>, a: string, b: string)
    ensures var c, opposite := Challenge(a, b), Challenge(b, a);
            && (RequestOutcome(pending, c) == MatchFound <==> opposite in pending)
            && (RequestOutcome(pending, c) == AddedToQueue <==> opposite !in pending && |pending| <= 4)
            && (RequestOutcome(pending, c) == Rejected <==> opposite !in pending && |pending| >= 5)
            && (opposite in pending ==>
                  multiset(AfterRequest(pending, c)) == multiset(pending) - multiset{opposite})
            && (opposite !in pending ==> AfterRequest(pending, c) == if |pending| <= 4 then pending + [c] else pending)
  {
    var k := IndexOf(pending, Challenge(b, a));
    if Challenge(b, a) in pending {
      SwapRemoveMultiset(pending, k);
    }
  }

  // What becomes of a withdrawal: the user's first pending challenge goes, and no other.
  lemma WithdrawCases(pending: seq<Challenge>, a: string)
    ensures (forall c :: c in pending ==> c.challenger != a) ==> AfterWithdraw(pending, a) == pending
    ensures forall k :: 0 <= k < |pending| && pending[k].challenger == a
                        && (forall i :: 0 <= i < k ==> pending[i].challenger != a) ==>
                          multiset(AfterWithdraw(pending, a)) == multiset(pending) - multiset{pending[k]}
  {
    var k := IndexFrom(pending, a);
    if k < |pending| {
      assert pending[k] in pending;
      SwapRemoveMultiset(pending, k);
    }
  }

  lemma SwapRemoveMultiset(s: seq<Challenge>, k: nat)
    requires k < |s|
    ensures multiset(SwapRemove(s, k)) == multiset(s) - multiset{s[k]}
  {
    var last := s[|s| - 1];
    var r, rest := multiset(SwapRemove(s, k)), multiset(s) - multiset{s[k]};
    assert s[k := last] == SwapRemove(s, k) + [last];
    assert r + multiset{last} == multiset(s[k := last]) == rest + multiset{last};
    forall c: Challenge ensures r[c] == rest[c] {
      assert (r + multiset{last})[c] == (rest + multiset{last})[c];
    }
    assert r == rest;
  }

  // ----- The list itself -----

  class ChallengeList {
    const slots: array<Option<Challenge>>
    var count: nat

    constructor ()
      ensures Valid() && fresh(slots) && Pending() == []
    {
      slots := new Option<Challenge>[MAX_CHALLENGES](_ => None);
      count := 0;
    }

    ghost predicate Valid()
      reads this, slots
    {
      && slots.Length == MAX_CHALLENGES && count <= MAX_CHALLENGES
      && forall i :: 0 <= i < MAX_CHALLENGES ==> (slots[i].Some? <==> i < count)
    }

    ghost function Pending(): (p: seq<Challenge>)
      requires Valid()
      reads this, slots
      ensures |p| == count && forall i :: 0 <= i < count ==> p[i] == slots[i].value
    {
      seq(count, i requires 0 <= i < count && Valid() reads this, slots => slots[i].value)
    }

    // activeChallengesList[i] is freed and overwritten by the last pointer, whose slot is cleared.
    method Remove(i: nat)
      requires Valid() && i < count
      modifies this, slots
      ensures Valid() && Pending() == SwapRemove(old(Pending()), i)
    {
      slots[i] := None;
      slots[i] := slots[count - 1];
      slots[count - 1] := None;
      count := count - 1;
    }

    method ProcessDuelRequest(challenger: string, target: string) returns (outcome: Outcome)
      requires Valid()
      modifies this, slots
      ensures Valid()
      ensures outcome == RequestOutcome(old(Pending()), Challenge(challenger, target))
      ensures outcome == MatchFound <==> Challenge(target, challenger) in old(Pending())
      ensures outcome == AddedToQueue <==> Challenge(target, challenger) !in old(Pending()) && |old(Pending())| <= 4
      ensures outcome == Rejected <==> Challenge(target, challenger) !in old(Pending()) && |old(Pending())| == 5
      ensures Pending() == AfterRequest(old(Pending()), Challenge(challenger, target))
    {
      var i := 0;
      while i < count
        invariant 0 <= i <= count && Valid() && Pending() == old(Pending())
        invariant forall k :: 0 <= k < i ==> Pending()[k] != Challenge(target, challenger)
      {
        if slots[i].Some? && slots[i].value.challenger == target && slots[i].value.target == challenger {
          assert Pending()[i] == Challenge(target, challenger);
          assert IndexOf(Pending(), Challenge(target, challenger)) == i;
          Remove(i);
          return MatchFound;
        }
        assert Pending()[i] == slots[i].value;
        i := i + 1;
      }
      if count >= MAX_CHALLENGES {
        return Rejected;
      }
      slots[count] := Some(Challenge(challenger, target));
      count := count + 1;
      outcome := AddedToQueue;
      assert Pending() == old(Pending()) + [Challenge(challenger, target)];
    }

    method RemoveDuelRequest(challenger: string) returns (removed: bool)
      requires Valid()
      modifies this, slots
      ensures Valid() && Pending() == AfterWithdraw(old(Pending()), challenger)
      ensures removed <==> exists c :: c in old(Pending()) && c.challenger == challenger
    {
      var i := 0;
      while i < count
        invariant 0 <= i <= count && Valid() && Pending() == old(Pending())
        invariant forall k :: 0 <= k < i ==> Pending()[k].challenger != challenger
      {
        assert Pending()[i] == slots[i].value;
        if slots[i].Some? && slots[i].value.challenger == challenger {
          assert IndexFrom(Pending(), challenger) == i && Pending()[i] in Pending();
          Remove(i);
          return true;
        }
        i := i + 1;
      }
      removed := false;
    }
  }

  // ----- Runs -----

  datatype Event = Request(c: Challenge) | Withdraw(challenger: string)

  // No two pending challenges are opposite to each other (nor is one self-challenge pending twice).
  ghost predicate NoOpposites(pending: seq<Challenge>) {
    forall i, j :: 0 <= i < j < |pending| ==> pending[i] != Opposite(pending[j])
  }

  // The pending list after a run of requests and withdrawals.
  function PendingAfter(events: seq<Event>): seq<Challenge> {
    if events == [] then []
    else
      var before := PendingAfter(events[..|events| - 1]);
      match events[|events| - 1]
      case Request(c) => AfterRequest(before, c)
      case Withdraw(a) => AfterWithdraw(before, a)
  }

  lemma SwapRemoveKeeps(pending: seq<Challenge>, k: nat)
    requires NoOpposites(pending) && k < |pending|
    ensures NoOpposites(SwapRemove(pending, k))
  {
    var r := SwapRemove(pending, k);
    forall i, j | 0 <= i < j < |r| ensures r[i] != Opposite(r[j]) {
      var i', j' := if i == k then |pending| - 1 else i, if j == k then |pending| - 1 else j;
      assert r[i] == pending[i'] && r[j] == pending[j'];
      if i' < j' {
        assert pending[i'] != Opposite(pending[j']);
      } else {
        assert pending[j'] != Opposite(pending[i']);
      }
    }
  }

  // In every run the list never holds both (a, b) and (b, a), and never more than five challenges.
  lemma {:induction false} NeverBothDirections(events: seq<Event>)
    ensures NoOpposites(PendingAfter(events)) && |PendingAfter(events)| <= 5
  {
    if events != [] {
      var before := PendingAfter(events[..|events| - 1]);
      NeverBothDirections(events[..|events| - 1]);
      match events[|events| - 1] {
        case Request(c) =>
          var k := IndexOf(before, Opposite(c));
          if k < |before| {
            SwapRemoveKeeps(before, k);
          } else {
            assert forall i :: 0 <= i < |before| ==> before[i] != Opposite(c);
          }
        case Withdraw(a) =>
          var k := IndexFrom(before, a);
          if k < |before| {
            SwapRemoveKeeps(before, k);
          }
      }
    }
  }

  // A pending challenge remembers the event that queued it.
  datatype Ticket = Ticket(c: Challenge, id: nat)

  // The same run with bookkeeping: which ticket each match used up and which withdrawal removed which ticket.
  datatype History = History(
    pending: seq<Ticket>,
    outcomes: seq<Option<Outcome>>,
    matched: map<nat, nat>,
    withdrawn: map<nat, nat>)

  function Bare(pending: seq<Ticket>): (r: seq<Challenge>)
    ensures |r| == |pending| && forall i :: 0 <= i < |r| ==> r[i] == pending[i].c
  {
    seq(|pending|, i requires 0 <= i < |pending| => pending[i].c)
  }

  function Step(h: History, e: Event): History {
    var now, bare := |h.outcomes|, Bare(h.pending);
    match e
    case Request(c) =>
      var outcome := RequestOutcome(bare, c);
      var h' := h.(outcomes := h.outcomes + [Some(outcome)]);
      var k := IndexOf(bare, Opposite(c));
      if outcome == MatchFound then
        h'.(pending := SwapRemove(h.pending, k), matched := h.matched[h.pending[k].id := now])
      else if outcome == AddedToQueue then h'.(pending := h.pending + [Ticket(c, now)])
      else h'
    case Withdraw(a) =>
      var h' := h.(outcomes := h.outcomes + [None]);
      var k := IndexFrom(bare, a);
      if k < |bare| then
        h'.(pending := SwapRemove(h.pending, k), withdrawn := h.withdrawn[h.pending[k].id := now])
      else h'
  }

  function Run(events: seq<Event>): History {
    if events == [] then History([], [], map[], map[])
    else Step(Run(events[..|events| - 1]), events[|events| - 1])
  }

  lemma StepIsFaithful(h: History, e: Event)
    ensures Bare(Step(h, e).pending) == match e
                                        case Request(c) => AfterRequest(Bare(h.pending), c)
                                        case Withdraw(a) => AfterWithdraw(Bare(h.pending), a)
    ensures Step(h, e).outcomes == h.outcomes + [match e
                                                 case Request(c) => Some(RequestOutcome(Bare(h.pending), c))
                                                 case Withdraw(_) => None]
  {
    hide IndexOf, IndexFrom, Bare, SwapRemove;
    match e {
      case Request(c) =>
        BareAppend(h.pending, Ticket(c, |h.outcomes|));
        var k := IndexOf(Bare(h.pending), Opposite(c));
        if k < |h.pending| {
          BareRemove(h.pending, k);
        }
      case Withdraw(a) =>
        var k := IndexFrom(Bare(h.pending), a);
        if k < |h.pending| {
          BareRemove(h.pending, k);
        }
    }
  }

  lemma BareRemove(pending: seq<Ticket>, k: nat)
    requires k < |pending|
    ensures Bare(SwapRemove(pending, k)) == SwapRemove(Bare(pending), k)
  {
    hide SwapRemove;
  }

  lemma BareAppend(pending: seq<Ticket>, t: Ticket)
    ensures Bare(pending + [t]) == Bare(pending) + [t.c]
  {
  }

  // The bookkeeping does not change what happens: pending list and answers are those of the plain run.
  lemma {:induction false} BookkeepingIsFaithful(events: seq<Event>)
    ensures Bare(Run(events).pending) == PendingAfter(events)
    ensures |Run(events).outcomes| == |events|
  {
    hide Step, Bare;
    if events == [] {
      EmptyBare();
    } else {
      var n := |events| - 1;
      BookkeepingIsFaithful(events[..n]);
      StepIsFaithful(Run(events[..n]), events[n]);
    }
  }

  lemma EmptyBare()
    ensures Bare([]) == []
  {
  }

  lemma {:induction false} AnswersAreFaithful(events: seq<Event>, j: nat)
    requires j < |events|
    ensures j < |Run(events).outcomes|
    ensures Run(events).outcomes[j] == match events[j]
                                       case Request(c) => Some(RequestOutcome(PendingAfter(events[..j]), c))
                                       case Withdraw(_) => None
    decreases |events|
  {
    hide Step, Bare, RequestOutcome;
    var n := |events| - 1;
    BookkeepingIsFaithful(events[..n]);
    StepIsFaithful(Run(events[..n]), events[n]);
    if j < n {
      AnswersAreFaithful(events[..n], j);
      assert events[..n][..j] == events[..j];
    }
  }

  // The event at position i queued challenge c.
  predicate Queued(events: seq<Event>, outcomes: seq<Option<Outcome>>, i: nat, c: Challenge) {
    i < |events| && i < |outcomes| && events[i] == Request(c) && outcomes[i] == Some(AddedToQueue)
  }

  // Every pending ticket was queued by its event ...
  ghost predicate PendingQueued(pending: seq<Ticket>, outcomes: seq<Option<Outcome>>, events: seq<Event>) {
    forall k :: 0 <= k < |pending| ==> Queued(events, outcomes, pending[k].id, pending[k].c)
  }

  // ... is pending once ...
  ghost predicate TicketsDistinct(pending: seq<Ticket>) {
    forall k, l :: 0 <= k < l < |pending| ==> pending[k].id != pending[l].id
  }

  // ... and has not been used up.
  ghost predicate PendingUnused(pending: seq<Ticket>, used: set<nat>) {
    forall k :: 0 <= k < |pending| ==> pending[k].id !in used
  }

  // A match is with an earlier opposite request that was queued.
  ghost predicate MatchedEarlier(matched: map<nat, nat>, outcomes: seq<Option<Outcome>>, events: seq<Event>) {
    forall i :: i in matched ==>
      && i < matched[i] < |events| && |events| == |outcomes|
      && events[matched[i]].Request? && outcomes[matched[i]] == Some(MatchFound)
      && Queued(events, outcomes, i, Opposite(events[matched[i]].c))
  }

  ghost predicate OneToOne(m: map<nat, nat>) {
    forall i, j :: i in m && j in m && i != j ==> m[i] != m[j]
  }

  // A withdrawal removes a queued challenge of the user who withdraws.
  ghost predicate WithdrawnByChallenger(withdrawn: map<nat, nat>, outcomes: seq<Option<Outcome>>, events: seq<Event>) {
    forall i :: i in withdrawn ==>
      && i < withdrawn[i] < |events| && |events| == |outcomes|
      && events[withdrawn[i]].Withdraw? && events[i].Request?
      && Queued(events, outcomes, i, events[i].c) && events[i].c.challenger == events[withdrawn[i]].challenger
  }

  // Every MATCH_FOUND used up a ticket.
  ghost predicate MatchesRecorded(matched: map<nat, nat>, outcomes: seq<Option<Outcome>>) {
    forall j :: 0 <= j < |outcomes| && outcomes[j] == Some(MatchFound) ==> j in matched.Values
  }

  // A queued challenge is somewhere.
  ghost predicate Accounted(pending: seq<Ticket>, used: set<nat>, i: nat) {
    i in used || exists k :: 0 <= k < |pending| && pending[k].id == i
  }

  // No queued challenge is lost.
  ghost predicate NothingLost(pending: seq<Ticket>, used: set<nat>, outcomes: seq<Option<Outcome>>) {
    forall i :: 0 <= i < |outcomes| && outcomes[i] == Some(AddedToQueue) ==> Accounted(pending, used, i)
  }

  ghost predicate Justified(h: History, events: seq<Event>) {
    var used := h.matched.Keys + h.withdrawn.Keys;
    && |h.outcomes| == |events|
    && PendingQueued(h.pending, h.outcomes, events) && TicketsDistinct(h.pending) && PendingUnused(h.pending, used)
    && MatchedEarlier(h.matched, h.outcomes, events) && OneToOne(h.matched)
    && WithdrawnByChallenger(h.withdrawn, h.outcomes, events) && h.matched.Keys !! h.withdrawn.Keys
    && MatchesRecorded(h.matched, h.outcomes) && NothingLost(h.pending, used, h.outcomes)
  }

  // Over any run of requests and withdrawals: every MATCH_FOUND is paired, injectively, with an earlier queued opposite
  // challenge that was neither withdrawn nor already matched; and every queued challenge is pending, matched or
  // withdrawn.
  lemma {:induction false} HistoryIsJustified(events: seq<Event>)
    ensures Justified(Run(events), events)
  {
    hide Justified, Step;
    if events == [] {
      NothingToJustify();
    } else {
      var n := |events| - 1;
      HistoryIsJustified(events[..n]);
      StepIsJustified(Run(events[..n]), events[..n], events[n]);
      assert events[..n] + [events[n]] == events;
    }
  }

  lemma NothingToJustify()
    ensures Justified(Run([]), [])
  {
  }

  lemma StepIsJustified(h: History, events: seq<Event>, e: Event)
    requires Justified(h, events)
    ensures Justified(Step(h, e), events + [e])
  {
    hide Justified, SwapRemove, IndexOf, IndexFrom;
    var bare := Bare(h.pending);
    match e {
      case Request(c) =>
        var k := IndexOf(bare, Opposite(c));
        if k < |bare| {
          MatchStep(h, events, c, k);
        } else if |bare| >= MAX_CHALLENGES {
          IdleStep(h, events, e, Some(Rejected));
        } else {
          QueueStep(h, events, c);
        }
      case Withdraw(a) =>
        var k := IndexFrom(bare, a);
        if k < |bare| {
          WithdrawStep(h, events, a, k);
        } else {
          IdleStep(h, events, e, None);
        }
    }
  }

  // ----- One more event -----

  lemma QueuedStays(events: seq<Event>, outcomes: seq<Option<Outcome>>, e: Event, answer: Option<Outcome>, i: nat,
      c: Challenge)
    requires Queued(events, outcomes, i, c)
    ensures Queued(events + [e], outcomes + [answer], i, c)
  {
  }

  // Recording one more answer leaves what was justified justified.
  lemma PendingExtends(pending: seq<Ticket>, outcomes: seq<Option<Outcome>>, events: seq<Event>, e: Event,
      answer: Option<Outcome>)
    requires PendingQueued(pending, outcomes, events)
    ensures PendingQueued(pending, outcomes + [answer], events + [e])
  {
    forall k | 0 <= k < |pending| ensures Queued(events + [e], outcomes + [answer], pending[k].id, pending[k].c) {
      QueuedStays(events, outcomes, e, answer, pending[k].id, pending[k].c);
    }
  }

  lemma MatchesExtend(matched: map<nat, nat>, outcomes: seq<Option<Outcome>>, events: seq<Event>, e: Event,
      answer: Option<Outcome>)
    requires MatchedEarlier(matched, outcomes, events) && |events| == |outcomes|
    ensures MatchedEarlier(matched, outcomes + [answer], events + [e])
  {
    hide Queued;
    forall i | i in matched
      ensures Queued(events + [e], outcomes + [answer], i, Opposite((events + [e])[matched[i]].c))
    {
      QueuedStays(events, outcomes, e, answer, i, Opposite(events[matched[i]].c));
    }
  }

  lemma WithdrawalsExtend(withdrawn: map<nat, nat>, outcomes: seq<Option<Outcome>>, events: seq<Event>, e: Event,
      answer: Option<Outcome>)
    requires WithdrawnByChallenger(withdrawn, outcomes, events) && |events| == |outcomes|
    ensures WithdrawnByChallenger(withdrawn, outcomes + [answer], events + [e])
  {
    hide Queued;
    forall i | i in withdrawn
      ensures Queued(events + [e], outcomes + [answer], i, (events + [e])[i].c)
    {
      QueuedStays(events, outcomes, e, answer, i, events[i].c);
    }
  }

  // Everything but the two accounts of what happened in between.
  lemma Extend(h: History, events: seq<Event>, e: Event, answer: Option<Outcome>)
    requires Justified(h, events)
    ensures PendingQueued(h.pending, h.outcomes + [answer], events + [e])
    ensures MatchedEarlier(h.matched, h.outcomes + [answer], events + [e])
    ensures WithdrawnByChallenger(h.withdrawn, h.outcomes + [answer], events + [e])
  {
    hide PendingQueued, MatchedEarlier, WithdrawnByChallenger, TicketsDistinct, PendingUnused, OneToOne,
        MatchesRecorded, NothingLost;
    PendingExtends(h.pending, h.outcomes, events, e, answer);
    MatchesExtend(h.matched, h.outcomes, events, e, answer);
    WithdrawalsExtend(h.withdrawn, h.outcomes, events, e, answer);
  }

  lemma RecordExtends(matched: map<nat, nat>, outcomes: seq<Option<Outcome>>, answer: Option<Outcome>)
    requires MatchesRecorded(matched, outcomes) && answer != Some(MatchFound)
    ensures MatchesRecorded(matched, outcomes + [answer])
  {
  }

  lemma AccountExtends(pending: seq<Ticket>, used: set<nat>, outcomes: seq<Option<Outcome>>, answer: Option<Outcome>)
    requires NothingLost(pending, used, outcomes) && answer != Some(AddedToQueue)
    ensures NothingLost(pending, used, outcomes + [answer])
  {
    hide Accounted;
  }

  // Nothing but the answer is recorded.
  lemma IdleStep(h: History, events: seq<Event>, e: Event, answer: Option<Outcome>)
    requires Justified(h, events) && answer != Some(MatchFound) && answer != Some(AddedToQueue)
    ensures Justified(h.(outcomes := h.outcomes + [answer]), events + [e])
  {
    Extend(h, events, e, answer);
    hide PendingQueued, MatchedEarlier, WithdrawnByChallenger, TicketsDistinct, PendingUnused, OneToOne,
        MatchesRecorded, NothingLost;
    RecordExtends(h.matched, h.outcomes, answer);
    AccountExtends(h.pending, h.matched.Keys + h.withdrawn.Keys, h.outcomes, answer);
  }

  // The number of a new event is not in use.
  lemma NewTicket(h: History, events: seq<Event>)
    requires Justified(h, events)
    ensures |h.outcomes| !in h.matched && |h.outcomes| !in h.withdrawn
    ensures forall i :: i in h.matched ==> h.matched[i] < |h.outcomes|
    ensures forall k :: 0 <= k < |h.pending| ==> h.pending[k].id < |h.outcomes|
  {
    hide TicketsDistinct, PendingUnused, OneToOne, MatchesRecorded, NothingLost;
  }

  lemma QueueStep(h: History, events: seq<Event>, c: Challenge)
    requires Justified(h, events)
    ensures Justified(h.(outcomes := h.outcomes + [Some(AddedToQueue)],
        pending := h.pending + [Ticket(c, |h.outcomes|)]),
                      events + [Request(c)])
  {
    var outcomes, used := h.outcomes + [Some(AddedToQueue)], h.matched.Keys + h.withdrawn.Keys;
    Extend(h, events, Request(c), Some(AddedToQueue));
    NewTicket(h, events);
    TicketAdded(h.pending, outcomes, events + [Request(c)], used, c);
    hide PendingQueued, MatchedEarlier, WithdrawnByChallenger, TicketsDistinct, PendingUnused, OneToOne,
        MatchesRecorded, NothingLost;
    RecordExtends(h.matched, h.outcomes, Some(AddedToQueue));
    TicketAccounted(h.pending, used, h.outcomes, c);
  }

  lemma TicketAdded(pending: seq<Ticket>, outcomes: seq<Option<Outcome>>, events: seq<Event>, used: set<nat>,
      c: Challenge)
    requires PendingQueued(pending, outcomes, events) && TicketsDistinct(pending) && PendingUnused(pending, used)
    requires outcomes != [] && Queued(events, outcomes, |outcomes| - 1, c) && |outcomes| - 1 !in used
    requires forall k :: 0 <= k < |pending| ==> pending[k].id < |outcomes| - 1
    ensures var pending' := pending + [Ticket(c, |outcomes| - 1)];
            PendingQueued(pending', outcomes, events) && TicketsDistinct(pending') && PendingUnused(pending', used)
  {
    hide Queued;
  }

  lemma TicketAccounted(pending: seq<Ticket>, used: set<nat>, outcomes: seq<Option<Outcome>>, c: Challenge)
    requires NothingLost(pending, used, outcomes)
    ensures NothingLost(pending + [Ticket(c, |outcomes|)], used, outcomes + [Some(AddedToQueue)])
  {
    var pending' := pending + [Ticket(c, |outcomes|)];
    forall i: nat | i < |outcomes| + 1 && (outcomes + [Some(AddedToQueue)])[i] == Some(AddedToQueue)
      ensures Accounted(pending', used, i)
    {
      if i == |outcomes| {
        assert pending'[|pending|].id == i;
      } else if i !in used {
        assert Accounted(pending, used, i);
        var k :| 0 <= k < |pending| && pending[k].id == i;
        assert pending'[k].id == i;
      }
    }
  }

  // Taking a ticket off the list keeps what is said about the others.
  lemma TicketRemoved(pending: seq<Ticket>, outcomes: seq<Option<Outcome>>, events: seq<Event>, used: set<nat>, k: nat)
    requires PendingQueued(pending, outcomes, events) && TicketsDistinct(pending) && PendingUnused(pending, used)
        && k < |pending|
    ensures var rest := SwapRemove(pending, k);
            PendingQueued(rest, outcomes, events) && TicketsDistinct(rest)
                && PendingUnused(rest, used + {pending[k].id})
  {
    hide Queued;
    var rest := SwapRemove(pending, k);
    forall i | 0 <= i < |rest| ensures rest[i].id != pending[k].id {
      assert rest[i] == pending[if i == k then |pending| - 1 else i];
    }
  }

  lemma RemovalAccounts(pending: seq<Ticket>, used: set<nat>, outcomes: seq<Option<Outcome>>, k: nat)
    requires NothingLost(pending, used, outcomes) && k < |pending|
    ensures NothingLost(SwapRemove(pending, k), used + {pending[k].id}, outcomes)
  {
    var rest := SwapRemove(pending, k);
    forall i: nat | i < |outcomes| && outcomes[i] == Some(AddedToQueue)
      ensures Accounted(rest, used + {pending[k].id}, i)
    {
      assert Accounted(pending, used, i);
      if i !in used && i != pending[k].id {
        var j :| 0 <= j < |pending| && pending[j].id == i;
        assert rest[if j == |pending| - 1 then k else j].id == i;
      }
    }
  }

  lemma MatchStep(h: History, events: seq<Event>, c: Challenge, k: nat)
    requires Justified(h, events) && k < |h.pending| && h.pending[k].c == Opposite(c)
    ensures Justified(h.(outcomes := h.outcomes + [Some(MatchFound)], pending := SwapRemove(h.pending, k),
                         matched := h.matched[h.pending[k].id := |h.outcomes|]), events + [Request(c)])
  {
    var id, now, used := h.pending[k].id, |h.outcomes|, h.matched.Keys + h.withdrawn.Keys;
    var outcomes, events' := h.outcomes + [Some(MatchFound)], events + [Request(c)];
    Extend(h, events, Request(c), Some(MatchFound));
    NewTicket(h, events);
    assert id !in used;
    TicketRemoved(h.pending, outcomes, events', used, k);
    MatchAdded(h.matched, outcomes, events', h.pending[k], now);
    hide PendingQueued, MatchedEarlier, WithdrawnByChallenger, TicketsDistinct, PendingUnused, OneToOne,
        MatchesRecorded, NothingLost, SwapRemove;
    MatchRecorded(h.matched, h.outcomes, id);
    RemovalAccounts(h.pending, used, h.outcomes, k);
    AccountExtends(SwapRemove(h.pending, k), used + {id}, h.outcomes, Some(MatchFound));
    assert h.matched[id := now].Keys + h.withdrawn.Keys == used + {id};
  }

  // A match uses up a ticket no earlier match used.
  lemma MatchAdded(matched: map<nat, nat>, outcomes: seq<Option<Outcome>>, events: seq<Event>, t: Ticket, now: nat)
    requires MatchedEarlier(matched, outcomes, events) && OneToOne(matched) && |events| == |outcomes| == now + 1
    requires forall i :: i in matched ==> matched[i] < now
    requires events[now].Request? && outcomes[now] == Some(MatchFound) && t.c == Opposite(events[now].c)
    requires t.id !in matched && t.id < now && Queued(events, outcomes, t.id, t.c)
    ensures MatchedEarlier(matched[t.id := now], outcomes, events) && OneToOne(matched[t.id := now])
  {
    hide Queued;
  }

  lemma MatchRecorded(matched: map<nat, nat>, outcomes: seq<Option<Outcome>>, id: nat)
    requires MatchesRecorded(matched, outcomes) && id !in matched
    ensures MatchesRecorded(matched[id := |outcomes|], outcomes + [Some(MatchFound)])
  {
    var matched' := matched[id := |outcomes|];
    forall j: nat | j <= |outcomes| && (outcomes + [Some(MatchFound)])[j] == Some(MatchFound)
      ensures j in matched'.Values
    {
      if j == |outcomes| {
        assert matched'[id] == j;
      } else {
        assert outcomes[j] == Some(MatchFound) && j in matched.Values;
        var i :| i in matched && matched[i] == j;
        assert matched'[i] == j;
      }
    }
  }

  lemma WithdrawStep(h: History, events: seq<Event>, a: string, k: nat)
    requires Justified(h, events) && k < |h.pending| && h.pending[k].c.challenger == a
    ensures Justified(h.(outcomes := h.outcomes + [None], pending := SwapRemove(h.pending, k),
                         withdrawn := h.withdrawn[h.pending[k].id := |h.outcomes|]), events + [Withdraw(a)])
  {
    var id, now, used := h.pending[k].id, |h.outcomes|, h.matched.Keys + h.withdrawn.Keys;
    var outcomes, events' := h.outcomes + [None], events + [Withdraw(a)];
    Extend(h, events, Withdraw(a), None);
    NewTicket(h, events);
    assert id !in used;
    TicketRemoved(h.pending, outcomes, events', used, k);
    WithdrawalAdded(h.withdrawn, outcomes, events', h.pending[k], now);
    hide PendingQueued, MatchedEarlier, WithdrawnByChallenger, TicketsDistinct, PendingUnused, OneToOne,
        MatchesRecorded, NothingLost, SwapRemove;
    RecordExtends(h.matched, h.outcomes, None);
    RemovalAccounts(h.pending, used, h.outcomes, k);
    AccountExtends(SwapRemove(h.pending, k), used + {id}, h.outcomes, None);
    assert h.matched.Keys + h.withdrawn[id := now].Keys == used + {id};
  }

  lemma WithdrawalAdded(withdrawn: map<nat, nat>, outcomes: seq<Option<Outcome>>, events: seq<Event>, t: Ticket,
      now: nat)
    requires WithdrawnByChallenger(withdrawn, outcomes, events) && |events| == |outcomes| == now + 1
    requires events[now].Withdraw? && t.c.challenger == events[now].challenger
    requires t.id < now && Queued(events, outcomes, t.id, t.c)
    ensures WithdrawnByChallenger(withdrawn[t.id := now], outcomes, events)
  {
  }
}
