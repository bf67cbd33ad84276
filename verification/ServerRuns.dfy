// Runs of the server from empty tables: what holds in every state, and the account of all ratings.
module ServerRuns {
  import opened Bytes
  import opened RecordTable
  import opened StableSort
  import opened Leaderboard
  import opened Ratings
  import opened ServerSteps

  // A run: every state follows from the one before it by its action.
  ghost predicate IsRun(g: real, run: seq<Server>, actions: seq<Action>)
    requires g > 1.0
  {
    && |run| == |actions| + 1 && run[0] == Init()
    && forall k :: 0 <= k < |actions| ==> Follows(g, run, actions, k)
  }

  // State k + 1 follows from state k by action k.
  ghost predicate Follows(g: real, run: seq<Server>, actions: seq<Action>, k: nat)
    requires g > 1.0 && k < |actions| < |run|
  {
    Next(g, run[k], actions[k], run[k + 1])
  }

  // What the actions other than a step of a thread do: a signup or a transfer begins with a thread that has touched
  // nothing yet, and the administrator's edits act on the problems as on a map by their ids.
  lemma ActionMeaning(g: real, s: Server, a: Action, s': Server)
    requires g > 1.0 && Next(g, s, a, s') && UniqueKeys(s.problems, ProblemId)
    ensures a.BeginSignup? ==>
        && a.name !in Keys(s.users, UserName)
        && s' == s.(threads := s.threads + [AddUser(a.name, a.password)])
    ensures a.BeginTransfer? ==> s' == s.(threads := s.threads + [ReadWinner(a.winner, a.loser)])
    ensures var m, m' := AsMap(s.problems, ProblemId), AsMap(s'.problems, ProblemId);
            match a
            case AddProblem(p) =>
              s' == s.(problems := s'.problems) && m' == if p.id in m then m else m[p.id := p]
            case EditProblem(p) =>
              s' == s.(problems := s'.problems) && m' == if p.id in m then m[p.id := p] else m
            case RemoveProblem(id) => s' == s.(problems := s'.problems) && m' == m - {id}
            case _ => s'.problems == s.problems
  {
    hide AsMap, UniqueKeys, Keys, Inserted, Updated, Deleted, ThreadStep, Lookup, IsStableSort;
    match a {
      case BeginSignup(name, _) => SignupAllowed(s.users, name);
      case AddProblem(p) => InsertRefines(s.problems, ProblemId, p);
      case EditProblem(p) => UpdateRefines(s.problems, ProblemId, p);
      case RemoveProblem(id) => DeleteRefines(s.problems, ProblemId, id);
      case Advance(i) => StepKeepsProblems(g, s, i, s');
      case _ =>
    }
  }

  lemma SignupAllowed(users: seq<User>, name: Username)
    ensures Lookup(users, Matching(UserName, name)).None? <==> name !in Keys(users, UserName)
  {
    FoundByKey(users, UserName, name);
  }

  lemma StepKeepsProblems(g: real, s: Server, i: nat, s': Server)
    requires g > 1.0 && Next(g, s, Advance(i), s')
    ensures s'.problems == s.problems
  {
    hide Inserted, Updated, Lookup, IsStableSort;
  }

  // The drift of the first k steps of a run.
  ghost function Drift(run: seq<Server>, actions: seq<Action>, k: nat): int
    requires k <= |actions| && |actions| <= |run|
  {
    if k == 0 then 0 else Drift(run, actions, k - 1) + StepDrift(run[k - 1], actions[k - 1])
  }

  // The only user at the start is admin, with the password admin and privilege 1.
  lemma InitHolds(g: real)
    requires g > 1.0
    ensures Invariant(g, Init(), 0)
    ensures Init() == Server([User(Ascii("admin"), Ascii("admin"), 1)], [], [], [])
  {
    assert ADMIN == Ascii("admin");
    assert Keys(Init().users, UserName) == {ADMIN} by {
      assert UserName(Init().users[0]) == ADMIN;
    }
  }

  // From empty tables, under any interleaving of signups, rating transfers, sorts and problem edits: in every state of
  // a run the keys are unique and agree, and the account of ratings balances with the drift of the run so far.
  lemma {:induction false} RunKeepsInvariant(g: real, run: seq<Server>, actions: seq<Action>, k: nat)
    requires g > 1.0 && IsRun(g, run, actions) && k <= |actions|
    ensures Invariant(g, run[k], Drift(run, actions, k))
  {
    hide Invariant, Next, Init, StepDrift;
    if k == 0 {
      InitHolds(g);
    } else {
      RunKeepsInvariant(g, run, actions, k - 1);
      assert Follows(g, run, actions, k - 1);
      NextKeeps(g, run[k - 1], Drift(run, actions, k - 1), actions[k - 1], run[k]);
    }
  }

  predicate BetweenWrites(threads: seq<Thread>) {
    exists i :: 0 <= i < |threads| && (threads[i].SortThenWriteLoser? || threads[i].WriteLoser?)
  }

  // When no transfer is between its two writes, the ratings sum to 1000 points a player plus the drift, so nothing has
  // been lost or made if and only if the drifts of the run cancel.
  lemma QuietRunsConserve(g: real, run: seq<Server>, actions: seq<Action>, k: nat)
    requires g > 1.0 && IsRun(g, run, actions) && k <= |actions| && !BetweenWrites(run[k].threads)
    ensures Total(run[k].board) == 1000 * |run[k].board| + Drift(run, actions, k)
  {
    RunKeepsInvariant(g, run, actions, k);
    hide IsRun, Total, Drift;
    NothingOutstanding(g, run[k].threads);
  }

  lemma {:induction false} NothingOutstanding(g: real, threads: seq<Thread>)
    requires g > 1.0 && !BetweenWrites(threads)
    ensures AllOutstanding(g, threads) == 0
  {
    if threads != [] {
      assert !threads[0].SortThenWriteLoser? && !threads[0].WriteLoser?;
      NothingOutstanding(g, threads[1..]);
    }
  }

  // When no signup is half done, the leaderboard lists exactly the users other than the administrator, once each.
  lemma QuietRunsAgreeOnKeys(g: real, run: seq<Server>, actions: seq<Action>, k: nat)
    requires g > 1.0 && IsRun(g, run, actions) && k <= |actions|
    requires forall i :: 0 <= i < |run[k].threads| ==> !run[k].threads[i].AddRow?
    ensures UniqueKeys(run[k].users, UserName) && UniqueKeys(run[k].board, Name)
        && UniqueKeys(run[k].problems, ProblemId)
    ensures Keys(run[k].board, Name) == Keys(run[k].users, UserName) - {ADMIN}
  {
    RunKeepsInvariant(g, run, actions, k);
    hide IsRun, Total, AllOutstanding, UniqueKeys, Keys, Drift;
  }

  // When no thread still has to sort, the leaderboard is ascending.
  lemma QuietRunsAreSorted(g: real, run: seq<Server>, actions: seq<Action>, k: nat)
    requires g > 1.0 && IsRun(g, run, actions) && k <= |actions| && !SortPending(run[k].threads)
    ensures Ascending(run[k].board)
  {
    RunKeepsInvariant(g, run, actions, k);
    hide IsRun, Total, AllOutstanding, UniqueKeys, Keys, Drift;
  }

  // ----- Runs without drift -----

  // A transfer between two different players that begins while neither of them is in an unfinished transfer.
  ghost predicate Apart(s: Server, a: Action) {
    a.BeginTransfer? ==>
      a.winner != a.loser && forall i :: 0 <= i < |s.threads| ==> Players(s.threads[i]) !! {a.winner, a.loser}
  }

  ghost predicate TransfersApart(run: seq<Server>, actions: seq<Action>)
    requires |actions| <= |run|
  {
    forall k :: 0 <= k < |actions| ==> Apart(run[k], actions[k])
  }

  // What a transfer has read and not written yet is still on the board.
  ghost predicate Holds(board: map<Username, Entry>, t: Thread) {
    match t
    case ReadWinner(w, l) => w != l
    case ReadLoser(w, l, we) => w != l && w in board && board[w].elo == we
    case WriteWinner(w, l, we, le) =>
      w != l && w in board && board[w].elo == we && l in board && board[l].elo == le
    case SortThenWriteLoser(w, l, we, le) => w != l && l in board && board[l].elo == le
    case WriteLoser(w, l, we, le) => w != l && l in board && board[l].elo == le
    case _ => true
  }

  ghost predicate TransfersHold(s: Server) {
    && (forall i :: 0 <= i < |s.threads| ==> Holds(Board(s), s.threads[i]))
    && (forall i, j :: 0 <= i < j < |s.threads| ==> Players(s.threads[i]) !! Players(s.threads[j]))
  }

  // A step that leaves the rows of other players alone keeps what their transfers rely on.
  lemma TransfersKept(s: Server, i: nat, s': Server)
    requires TransfersHold(s) && i < |s.threads|
    requires |s'.threads| == |s.threads| && s'.threads == s.threads[i := s'.threads[i]]
    requires Players(s'.threads[i]) <= Players(s.threads[i]) && Holds(Board(s'), s'.threads[i])
    requires forall k :: k in Board(s) && k !in Players(s.threads[i]) ==> k in Board(s') && Board(s')[k] == Board(s)[k]
    ensures TransfersHold(s')
  {
    hide AsMap;
    forall k | 0 <= k < |s'.threads| ensures Holds(Board(s'), s'.threads[k]) {
      if k != i {
        assert Players(s.threads[k]) !! Players(s.threads[i]);
        assert Holds(Board(s), s.threads[k]);
      }
    }
    forall j, k | 0 <= j < k < |s'.threads| ensures Players(s'.threads[j]) !! Players(s'.threads[k]) {
      assert Players(s.threads[j]) !! Players(s.threads[k]);
    }
  }

  // What a step of thread i must do to the rows of the board and to what the thread knows of them.
  ghost predicate KeepsRows(s: Server, i: nat, s': Server) {
    && i < |s.threads| && i < |s'.threads|
    && Holds(Board(s'), s'.threads[i]) && Players(s'.threads[i]) <= Players(s.threads[i])
    && forall k :: k in Board(s) && k !in Players(s.threads[i]) ==> k in Board(s') && Board(s')[k] == Board(s)[k]
  }

  lemma ReadRows(g: real, s: Server, i: nat, s': Server)
    requires g > 1.0 && UniqueKeys(s.board, Name) && Advances(g, s, i, s') && Holds(Board(s), s.threads[i])
    requires s.threads[i].ReadWinner? || s.threads[i].ReadLoser?
    ensures KeepsRows(s, i, s')
  {
    hide Total, Find, AsMap, Delta, UniqueKeys, Lookup, Updated, Inserted, IsStableSort, Ascending;
    ReadRow(s.board, if s.threads[i].ReadWinner? then s.threads[i].winner else s.threads[i].loser);
  }

  lemma WriteRows(g: real, s: Server, i: nat, s': Server)
    requires g > 1.0 && UniqueKeys(s.board, Name) && Advances(g, s, i, s') && Holds(Board(s), s.threads[i])
    requires s.threads[i].WriteWinner? || s.threads[i].WriteLoser?
    ensures KeepsRows(s, i, s')
  {
    hide Total, Find, AsMap, Delta, UniqueKeys, Lookup, Updated, Inserted, IsStableSort, Ascending;
    var t := s.threads[i];
    var change := Delta(g, t.winnerElo, t.loserElo);
    WriteKeeps(s.board, if t.WriteWinner? then Entry(t.winner, t.winnerElo + change)
                        else Entry(t.loser, t.loserElo - change));
  }

  lemma OtherRows(g: real, s: Server, i: nat, s': Server)
    requires g > 1.0 && UniqueKeys(s.board, Name) && Advances(g, s, i, s') && Holds(Board(s), s.threads[i])
    requires var t := s.threads[i];
             t.AddUser? || t.AddRow? || t.SortThenWriteLoser? || t.SortLast? || t.Done?
    ensures KeepsRows(s, i, s')
  {
    hide Total, Find, AsMap, Delta, UniqueKeys, Lookup, Updated, Inserted, IsStableSort, Ascending;
    var t := s.threads[i];
    if t.AddRow? {
      InsertRefines(s.board, Name, Entry(t.name, DEFAULT_ELO));
    } else if t.SortThenWriteLoser? || t.SortLast? {
      SortKeeps(s.board, s'.board);
    }
  }

  lemma NextHolds(g: real, s: Server, a: Action, s': Server)
    requires g > 1.0 && KeysAgree(s) && TransfersHold(s) && Apart(s, a) && Next(g, s, a, s')
    ensures TransfersHold(s') && StepDrift(s, a) == 0
  {
    assert UniqueKeys(s.board, Name);
    hide KeysAgree, ThreadStep, AsMap, UniqueKeys, Inserted, Updated, Deleted, Lookup;
    if a.Advance? {
      var t := s.threads[a.i];
      assert Holds(Board(s), t);
      hide Holds;
      if t.ReadWinner? || t.ReadLoser? {
        ReadRows(g, s, a.i, s');
      } else if t.WriteWinner? || t.WriteLoser? {
        WriteRows(g, s, a.i, s');
      } else {
        OtherRows(g, s, a.i, s');
      }
      TransfersKept(s, a.i, s');
    }
  }

  lemma NothingHeld()
    ensures TransfersHold(Init())
  {
  }

  // If every transfer of a run begins apart from the unfinished ones, no write undoes another and there is no drift.
  lemma {:induction false} ApartRunsDoNotDrift(g: real, run: seq<Server>, actions: seq<Action>, k: nat)
    requires g > 1.0 && IsRun(g, run, actions) && k <= |actions| && TransfersApart(run, actions)
    ensures TransfersHold(run[k]) && Drift(run, actions, k) == 0
  {
    hide TransfersHold, Next, Init, StepDrift, Apart, KeysAgree, RowsStay, Balanced, SortedWhenQuiet;
    if k == 0 {
      NothingHeld();
    } else {
      ApartRunsDoNotDrift(g, run, actions, k - 1);
      RunKeepsInvariant(g, run, actions, k - 1);
      assert Follows(g, run, actions, k - 1);
      NextHolds(g, run[k - 1], actions[k - 1], run[k]);
    }
  }

  // Then the ratings sum to 1000 points a player plus what half-finished transfers have paid out and not yet taken.
  lemma ApartRunsConserve(g: real, run: seq<Server>, actions: seq<Action>, k: nat)
    requires g > 1.0 && IsRun(g, run, actions) && k <= |actions| && TransfersApart(run, actions)
    ensures Total(run[k].board) == 1000 * |run[k].board| + AllOutstanding(g, run[k].threads)
    ensures !BetweenWrites(run[k].threads) ==> Total(run[k].board) == 1000 * |run[k].board|
  {
    RunKeepsInvariant(g, run, actions, k);
    ApartRunsDoNotDrift(g, run, actions, k);
    hide IsRun, Total, Drift, TransfersApart, TransfersHold;
    if !BetweenWrites(run[k].threads) {
      NothingOutstanding(g, run[k].threads);
    }
  }

  // ----- One thread running alone -----

  // Thread i makes all the steps of a series of states.
  ghost predicate RunsAlone(g: real, run: seq<Server>, i: nat)
    requires g > 1.0
  {
    && (forall k :: 0 <= k < |run| ==> i < |run[k].threads|)
    && forall k :: 0 <= k < |run| - 1 ==> Advances(g, run[k], i, run[k + 1])
  }

  lemma AloneStep(g: real, run: seq<Server>, i: nat, k: nat)
    requires g > 1.0 && RunsAlone(g, run, i) && k < |run| - 1
    ensures Advances(g, run[k], i, run[k + 1]) && i < |run[k].threads|
  {
  }

  // The six steps of a transfer, made without another thread in between, do to the board what one call of
  // updateDuelElos does, and leave it sorted.
  lemma TransferAlone(g: real, run: seq<Server>, i: nat, winner: Username, loser: Username)
    requires g > 1.0 && |run| == 7 && RunsAlone(g, run, i) && UniqueKeys(run[0].board, Name)
    requires run[0].threads[i] == ReadWinner(winner, loser)
    ensures run[6].threads[i] == Done && UniqueKeys(run[6].board, Name)
    ensures Board(run[6]) == AfterTransfer(g, Board(run[0]), winner, loser)
    ensures winner in Board(run[0]) && loser in Board(run[0]) ==> Ascending(run[6].board)
    ensures run[6].users == run[0].users && run[6].problems == run[0].problems
  {
    hide RunsAlone, Advances, AfterTransfer, AsMap, UniqueKeys, Ascending;
    forall k | 0 <= k < 6 ensures Advances(g, run[k], i, run[k + 1]) && i < |run[k].threads| {
      AloneStep(g, run, i, k);
    }
    var m := Board(run[0]);
    Reading(g, run[0], i, run[1]);
    Reading(g, run[1], i, run[2]);
    Reading(g, run[2], i, run[3]);
    if winner in m && loser in m {
      var we, le := m[winner].elo, m[loser].elo;
      Writing(g, run[2], i, run[3]);
      Sorting(g, run[3], i, run[4]);
      Writing(g, run[4], i, run[5]);
      Sorting(g, run[5], i, run[6]);
    } else {
      Reading(g, run[3], i, run[4]);
      Reading(g, run[4], i, run[5]);
      Reading(g, run[5], i, run[6]);
    }
    TransferRows(g, m, winner, loser);
  }

  lemma TransferRows(g: real, m: map<Username, Entry>, winner: Username, loser: Username)
    requires g > 1.0
    ensures AfterTransfer(g, m, winner, loser)
            == if winner in m && loser in m then
                 m[winner := Entry(winner, m[winner].elo + Delta(g, m[winner].elo, m[loser].elo))]
                 [loser := Entry(loser, m[loser].elo - Delta(g, m[winner].elo, m[loser].elo))]
               else m
  {
  }

  lemma Reading(g: real, s: Server, i: nat, s': Server)
    requires g > 1.0 && Advances(g, s, i, s') && UniqueKeys(s.board, Name)
    requires i < |s.threads|
    ensures i < |s'.threads|
    ensures var t := s.threads[i];
            t.ReadWinner? || t.ReadLoser? || t.Done? ==>
              && s'.board == s.board && s'.users == s.users && s'.problems == s.problems
              && s'.threads[i] == match t
                                  case ReadWinner(w, l) =>
                                    if w in Board(s) then ReadLoser(w, l, Board(s)[w].elo) else Done
                                  case ReadLoser(w, l, we) =>
                                    if l in Board(s) then WriteWinner(w, l, we, Board(s)[l].elo) else Done
                                  case _ => Done
  {
    hide AsMap, UniqueKeys, Lookup, Delta, Updated, Inserted, IsStableSort;
    var t := s.threads[i];
    if t.ReadWinner? || t.ReadLoser? {
      ReadRow(s.board, if t.ReadWinner? then t.winner else t.loser);
    }
  }

  lemma Writing(g: real, s: Server, i: nat, s': Server)
    requires g > 1.0 && Advances(g, s, i, s') && UniqueKeys(s.board, Name) && i < |s.threads|
    requires var t := s.threads[i];
             (t.WriteWinner? && t.winner in Board(s)) || (t.WriteLoser? && t.loser in Board(s))
    ensures i < |s'.threads| && UniqueKeys(s'.board, Name) && s'.users == s.users && s'.problems == s.problems
    ensures var t := s.threads[i]; var d := Delta(g, t.winnerElo, t.loserElo);
            if t.WriteWinner? then
              && Board(s') == Board(s)[t.winner := Entry(t.winner, t.winnerElo + d)]
              && s'.threads[i] == SortThenWriteLoser(t.winner, t.loser, t.winnerElo, t.loserElo)
            else
              Board(s') == Board(s)[t.loser := Entry(t.loser, t.loserElo - d)] && s'.threads[i] == SortLast
  {
    hide AsMap, UniqueKeys, Lookup, Delta, Updated, Inserted, IsStableSort;
    var t := s.threads[i];
    var d := Delta(g, t.winnerElo, t.loserElo);
    WriteKeeps(s.board, if t.WriteWinner? then Entry(t.winner, t.winnerElo + d) else Entry(t.loser, t.loserElo - d));
  }

  lemma Sorting(g: real, s: Server, i: nat, s': Server)
    requires g > 1.0 && Advances(g, s, i, s') && UniqueKeys(s.board, Name) && i < |s.threads|
    requires s.threads[i].SortThenWriteLoser? || s.threads[i].SortLast?
    ensures i < |s'.threads| && UniqueKeys(s'.board, Name) && Board(s') == Board(s) && Ascending(s'.board)
    ensures s'.users == s.users && s'.problems == s.problems
    ensures var t := s.threads[i];
            s'.threads[i]
            == if t.SortLast? then Done else WriteLoser(t.winner, t.loser, t.winnerElo, t.loserElo)
  {
    hide AsMap, UniqueKeys, Lookup, Delta, Updated, Inserted, IsStableSort, Total, Ascending;
    SortKeeps(s.board, s'.board);
  }

  // The three steps of a signup, made alone: a new user without privileges and a row of 1000 points on a sorted board;
  // nothing changes if the name is taken.
  lemma SignupAlone(g: real, run: seq<Server>, i: nat, name: Username, password: bytes)
    requires g > 1.0 && |run| == 4 && RunsAlone(g, run, i)
    requires UniqueKeys(run[0].board, Name) && UniqueKeys(run[0].users, UserName) && name !in Board(run[0])
    requires run[0].threads[i] == AddUser(name, password)
    ensures run[3].threads[i] == Done && run[3].problems == run[0].problems
    ensures name !in Keys(run[0].users, UserName) ==>
        && run[3].users == run[0].users + [User(name, password, 0)]
        && Board(run[3]) == Board(run[0])[name := Entry(name, 1000)] && Ascending(run[3].board)
    ensures name in Keys(run[0].users, UserName) ==> run[3].users == run[0].users && run[3].board == run[0].board
  {
    hide AsMap, UniqueKeys, Keys, Ascending, Advances, RunsAlone;
    AloneStep(g, run, i, 0);
    AloneStep(g, run, i, 1);
    AloneStep(g, run, i, 2);
    FoundByKey(run[0].users, UserName, name);
    SigningUp(g, run[0], i, run[1]);
    if name !in Keys(run[0].users, UserName) {
      SigningUp(g, run[1], i, run[2]);
      Sorting(g, run[2], i, run[3]);
    } else {
      Reading(g, run[1], i, run[2]);
      Reading(g, run[2], i, run[3]);
    }
  }

  lemma SigningUp(g: real, s: Server, i: nat, s': Server)
    requires g > 1.0 && i < |s.threads| && Advances(g, s, i, s')
    ensures i < |s'.threads| && s'.problems == s.problems
    ensures var t := s.threads[i];
            t.AddUser? ==>
              && s'.board == s.board
              && if t.name in Keys(s.users, UserName) then s'.users == s.users && s'.threads[i] == Done
                 else s'.users == s.users + [User(t.name, t.password, 0)] && s'.threads[i] == AddRow(t.name)
    ensures var t := s.threads[i];
            t.AddRow? && UniqueKeys(s.board, Name) && t.name !in Board(s) ==>
              && s'.users == s.users && s'.threads[i] == SortLast
              && UniqueKeys(s'.board, Name) && Board(s') == Board(s)[t.name := Entry(t.name, 1000)]
  {
    hide AsMap, UniqueKeys, Keys, Delta, Updated, IsStableSort, Total;
    var t := s.threads[i];
    if t.AddUser? {
      FoundByKey(s.users, UserName, t.name);
    } else if t.AddRow? && UniqueKeys(s.board, Name) && t.name !in Board(s) {
      AddKeeps(s.board, Entry(t.name, 1000));
    }
  }
}
