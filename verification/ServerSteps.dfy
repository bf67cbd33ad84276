// The server's tables under any interleaving of signups, rating transfers and problem edits, one table operation a
// step. Transfers may overlap and share players; what that does to the sum of ratings is accounted for exactly.
module ServerSteps {
  import opened Bytes
  import opened RecordTable
  import opened StableSort
  import opened Leaderboard
  import opened Ratings

  const ADMIN: Username := [97, 100, 109, 105, 110]

  datatype User = User(name: Username, password: bytes, privilege: int)

  datatype Problem = Problem(id: int, title: bytes, difficulty: int, visibility: int)

  // A client or duel thread, by the table operation it performs next.
  datatype Thread =
    | AddUser(name: Username, password: bytes)
    | AddRow(name: Username)
    | ReadWinner(winner: Username, loser: Username)
    | ReadLoser(winner: Username, loser: Username, winnerElo: int)
    | WriteWinner(winner: Username, loser: Username, winnerElo: int, loserElo: int)
    | SortThenWriteLoser(winner: Username, loser: Username, winnerElo: int, loserElo: int)
    | WriteLoser(winner: Username, loser: Username, winnerElo: int, loserElo: int)
    | SortLast
    | Done

  datatype Server = Server(users: seq<User>, board: seq<Entry>, problems: seq<Problem>, threads: seq<Thread>)

  datatype Action =
    | BeginSignup(name: Username, password: bytes)
    | BeginTransfer(winner: Username, loser: Username)
    | Advance(i: nat)
    | AddProblem(problem: Problem)
    | EditProblem(problem: Problem)
    | RemoveProblem(id: int)

  function UserName(u: User): Username { u.name }

  function ProblemId(p: Problem): int { p.id }

  // serverInit on an empty database directory.
  function Init(): Server {
    Server([User(ADMIN, ADMIN, 1)], [], [], [])
  }

  // The players of a transfer that has not made its last write.
  function Players(t: Thread): set<Username> {
    match t
    case ReadWinner(w, l) => {w, l}
    case ReadLoser(w, l, _) => {w, l}
    case WriteWinner(w, l, _, _) => {w, l}
    case SortThenWriteLoser(w, l, _, _) => {w, l}
    case WriteLoser(w, l, _, _) => {w, l}
    case _ => {}
  }

  // One table operation of one thread.
  ghost predicate ThreadStep(g: real, s: Server, t: Thread, s': Server, t': Thread)
    requires g > 1.0
  {
    && s'.problems == s.problems
    && match t
       case AddUser(name, password) =>
         && s'.board == s.board
         && s'.users == Inserted(s.users, User(name, password, 0), Matching(UserName, name))
         && t' == if Lookup(s.users, Matching(UserName, name)).None? then AddRow(name) else Done
       case AddRow(name) =>
         && s'.users == s.users
         && s'.board == Inserted(s.board, Entry(name, DEFAULT_ELO), Matching(Name, name))
         && t' == SortLast
       case ReadWinner(w, l) =>
         && s'.users == s.users && s'.board == s.board
         && t' == (match Lookup(s.board, Matching(Name, w))
                   case Some(e) => ReadLoser(w, l, e.elo)
                   case None => Done)
       case ReadLoser(w, l, we) =>
         && s'.users == s.users && s'.board == s.board
         && t' == (match Lookup(s.board, Matching(Name, l))
                   case Some(e) => WriteWinner(w, l, we, e.elo)
                   case None => Done)
       case WriteWinner(w, l, we, le) =>
         && s'.users == s.users
         && s'.board == Updated(s.board, Entry(w, we + Delta(g, we, le)), Matching(Name, w))
         && t' == SortThenWriteLoser(w, l, we, le)
       case SortThenWriteLoser(w, l, we, le) =>
         && s'.users == s.users && IsStableSort(s.board, s'.board, Compare)
         && t' == WriteLoser(w, l, we, le)
       case WriteLoser(w, l, we, le) =>
         && s'.users == s.users
         && s'.board == Updated(s.board, Entry(l, le - Delta(g, we, le)), Matching(Name, l))
         && t' == SortLast
       case SortLast =>
         && s'.users == s.users && IsStableSort(s.board, s'.board, Compare)
         && t' == Done
       case Done => s' == s && t' == Done
  }

  ghost predicate Next(g: real, s: Server, a: Action, s': Server)
    requires g > 1.0
  {
    match a
    case BeginSignup(name, password) =>
      // getUserRecord found nobody of that name
      && Lookup(s.users, Matching(UserName, name)).None?
      && s' == s.(threads := s.threads + [AddUser(name, password)])
    case BeginTransfer(w, l) => s' == s.(threads := s.threads + [ReadWinner(w, l)])
    case Advance(i) =>
      && i < |s.threads| && |s'.threads| == |s.threads| && s'.threads == s.threads[i := s'.threads[i]]
      && ThreadStep(g, s, s.threads[i], s', s'.threads[i])
    case AddProblem(p) => s' == s.(problems := Inserted(s.problems, p, Matching(ProblemId, p.id)))
    case EditProblem(p) => s' == s.(problems := Updated(s.problems, p, Matching(ProblemId, p.id)))
    case RemoveProblem(id) => s' == s.(problems := Deleted(s.problems, Matching(ProblemId, id)))
  }

  // ----- Drift: what a write undoes of other writes -----

  // The difference between the rating that a transfer read and the row it overwrites. If it is not 0, the row has been
  // written in between.
  ghost function ThreadDrift(board: map<Username, Entry>, t: Thread): int {
    match t
    case WriteWinner(w, _, we, _) => if w in board then we - board[w].elo else 0
    case WriteLoser(_, l, _, le) => if l in board then le - board[l].elo else 0
    case _ => 0
  }

  ghost function StepDrift(s: Server, a: Action): int {
    match a
    case Advance(i) => if i < |s.threads| then ThreadDrift(Board(s), s.threads[i]) else 0
    case _ => 0
  }

  // ----- The invariant -----

  // Points the winner already has and the loser still has to give.
  ghost function Outstanding(g: real, t: Thread): int
    requires g > 1.0
  {
    match t
    case SortThenWriteLoser(_, _, we, le) => Delta(g, we, le)
    case WriteLoser(_, _, we, le) => Delta(g, we, le)
    case _ => 0
  }

  ghost function AllOutstanding(g: real, threads: seq<Thread>): int
    requires g > 1.0
  {
    if threads == [] then 0 else Outstanding(g, threads[0]) + AllOutstanding(g, threads[1..])
  }

  lemma {:induction false} OutstandingConcat(g: real, a: seq<Thread>, b: seq<Thread>)
    requires g > 1.0
    ensures AllOutstanding(g, a + b) == AllOutstanding(g, a) + AllOutstanding(g, b)
  {
    hide Outstanding;
    if a == [] {
      assert a + b == b;
    } else {
      assert (a + b)[1..] == a[1..] + b;
      OutstandingConcat(g, a[1..], b);
    }
  }

  lemma OutstandingUpdate(g: real, threads: seq<Thread>, i: nat, t: Thread)
    requires g > 1.0 && i < |threads|
    ensures AllOutstanding(g, threads[i := t])
        == AllOutstanding(g, threads) - Outstanding(g, threads[i]) + Outstanding(g, t)
  {
    hide Outstanding;
    var head, tail := threads[..i], threads[i + 1..];
    assert threads == head + ([threads[i]] + tail) && threads[i := t] == head + ([t] + tail);
    OutstandingConcat(g, head, [threads[i]] + tail);
    OutstandingConcat(g, head, [t] + tail);
  }

  // Names whose user row is written and whose leaderboard row is not.
  ghost predicate HalfSignedUp(threads: seq<Thread>, name: Username) {
    exists i :: 0 <= i < |threads| && threads[i] == AddRow(name)
  }

  // Keys are unique in every table, and the leaderboard lists the users except the administrator and
  // those in the middle of a signup.
  ghost predicate KeysAgree(s: Server) {
    && UniqueKeys(s.users, UserName) && UniqueKeys(s.board, Name) && UniqueKeys(s.problems, ProblemId)
    && ADMIN in Keys(s.users, UserName) && ADMIN !in Keys(s.board, Name) && !HalfSignedUp(s.threads, ADMIN)
    && (forall name :: name in Keys(s.users, UserName) <==>
          name == ADMIN || name in Keys(s.board, Name) || HalfSignedUp(s.threads, name))
    && (forall name :: HalfSignedUp(s.threads, name) ==> name !in Keys(s.board, Name))
    && (forall i, j :: 0 <= i < j < |s.threads| && s.threads[i].AddRow? && s.threads[j].AddRow? ==>
          s.threads[i].name != s.threads[j].name)
  }

  // The rows that a transfer has found.
  function Found(t: Thread): set<Username> {
    match t
    case ReadLoser(w, l, _) => {w}
    case WriteWinner(w, l, _, _) => {w, l}
    case SortThenWriteLoser(w, l, _, _) => {w, l}
    case WriteLoser(w, l, _, _) => {w, l}
    case _ => {}
  }

  ghost predicate RowsStay(s: Server) {
    forall i :: 0 <= i < |s.threads| ==> Found(s.threads[i]) <= Board(s).Keys
  }

  // The account of all ratings: 1000 points a player, plus what half-finished transfers have paid out and not yet
  // taken, plus the drift so far.
  ghost predicate Balanced(g: real, s: Server, drift: int)
    requires g > 1.0
  {
    Total(s.board) == DEFAULT_ELO * |s.board| + AllOutstanding(g, s.threads) + drift
  }

  // Some thread has written to the board and not sorted it yet.
  predicate SortPending(threads: seq<Thread>) {
    exists i :: 0 <= i < |threads| && (threads[i].SortLast? || threads[i].SortThenWriteLoser?)
  }

  ghost predicate SortedWhenQuiet(s: Server) {
    !SortPending(s.threads) ==> Ascending(s.board)
  }

  ghost predicate Invariant(g: real, s: Server, drift: int)
    requires g > 1.0
  {
    KeysAgree(s) && RowsStay(s) && Balanced(g, s, drift) && SortedWhenQuiet(s)
  }

  // The map of the board, by name.
  ghost function Board(s: Server): map<Username, Entry> {
    AsMap(s.board, Name)
  }

  // ----- Preservation, one part of the invariant at a time -----

  lemma SameHalf(threads: seq<Thread>, i: nat, t: Thread)
    requires i < |threads| && !threads[i].AddRow? && !t.AddRow?
    ensures forall name :: HalfSignedUp(threads[i := t], name) <==> HalfSignedUp(threads, name)
  {
    forall name ensures HalfSignedUp(threads[i := t], name) <==> HalfSignedUp(threads, name) {
      if HalfSignedUp(threads, name) {
        var k :| 0 <= k < |threads| && threads[k] == AddRow(name);
        assert threads[i := t][k] == AddRow(name);
      }
      if HalfSignedUp(threads[i := t], name) {
        var k :| 0 <= k < |threads| && threads[i := t][k] == AddRow(name);
        assert threads[k] == AddRow(name);
      }
    }
  }

  // A step that is not part of a signup keeps the keys of every table.
  lemma KeysKept(s: Server, i: nat, s': Server)
    requires KeysAgree(s) && i < |s.threads| && !s.threads[i].AddRow?
    requires |s'.threads| == |s.threads| && s'.threads == s.threads[i := s'.threads[i]] && !s'.threads[i].AddRow?
    requires s'.users == s.users && s'.problems == s.problems
    requires UniqueKeys(s'.board, Name) && Board(s').Keys == Board(s).Keys
    ensures KeysAgree(s')
  {
    SameHalf(s.threads, i, s'.threads[i]);
    KeysOfMap(s.board, Name);
    KeysOfMap(s'.board, Name);
    hide HalfSignedUp, UniqueKeys, Keys, AsMap;
  }

  lemma RowsKept(s: Server, i: nat, s': Server)
    requires RowsStay(s) && i < |s.threads|
    requires |s'.threads| == |s.threads| && s'.threads == s.threads[i := s'.threads[i]]
    requires Board(s).Keys <= Board(s').Keys && Found(s'.threads[i]) <= Board(s').Keys
    ensures RowsStay(s')
  {
    hide AsMap, Found;
  }

  lemma BalanceKept(g: real, s: Server, drift: int, i: nat, s': Server)
    requires g > 1.0 && Balanced(g, s, drift) && i < |s.threads|
    requires |s'.threads| == |s.threads| && s'.threads == s.threads[i := s'.threads[i]]
    requires Total(s'.board) - DEFAULT_ELO * |s'.board| - Outstanding(g, s'.threads[i])
             == Total(s.board) - DEFAULT_ELO * |s.board| - Outstanding(g, s.threads[i])
                 + ThreadDrift(Board(s), s.threads[i])
    ensures Balanced(g, s', drift + ThreadDrift(Board(s), s.threads[i]))
  {
    hide Outstanding, Total, AllOutstanding, ThreadDrift;
    OutstandingUpdate(g, s.threads, i, s'.threads[i]);
  }

  // A step that writes must say that a sort is due; a step that does not write may not forget one.
  lemma SortedKept(s: Server, i: nat, s': Server)
    requires SortedWhenQuiet(s) && i < |s.threads|
    requires |s'.threads| == |s.threads| && s'.threads == s.threads[i := s'.threads[i]]
    requires s'.threads[i].SortLast? || s'.threads[i].SortThenWriteLoser? || Ascending(s'.board)
             || (s'.board == s.board && !s.threads[i].SortLast? && !s.threads[i].SortThenWriteLoser?)
    ensures SortedWhenQuiet(s')
  {
    hide Ascending;
    var t' := s'.threads[i];
    if t'.SortLast? || t'.SortThenWriteLoser? {
      assert SortPending(s'.threads);
    } else if SortPending(s.threads) && s'.board == s.board && !s.threads[i].SortLast?
        && !s.threads[i].SortThenWriteLoser? {
      var k :| 0 <= k < |s.threads| && (s.threads[k].SortLast? || s.threads[k].SortThenWriteLoser?);
      assert s'.threads[k] == s.threads[k];
    }
  }

  // ----- Preservation, one kind of step at a time -----

  // Thread i takes one step.
  ghost predicate Advances(g: real, s: Server, i: nat, s': Server)
    requires g > 1.0
  {
    && i < |s.threads| && |s'.threads| == |s.threads| && s'.threads == s.threads[i := s'.threads[i]]
    && ThreadStep(g, s, s.threads[i], s', s'.threads[i])
  }

  lemma AddUserKeeps(g: real, s: Server, drift: int, i: nat, s': Server)
    requires g > 1.0 && Invariant(g, s, drift) && Advances(g, s, i, s') && s.threads[i].AddUser?
    ensures Invariant(g, s', drift + ThreadDrift(Board(s), s.threads[i]))
  {
    hide Total, Ascending, Find, AsMap, Delta;
    RowsKept(s, i, s');
    BalanceKept(g, s, drift, i, s');
    SortedKept(s, i, s');
    SignupKeys(s, i, s', s.threads[i].name, s.threads[i].password);
  }

  lemma SignupKeys(s: Server, i: nat, s': Server, name: Username, password: bytes)
    requires KeysAgree(s) && i < |s.threads| && s.threads[i] == AddUser(name, password)
    requires s'
        == s.(users := Inserted(s.users, User(name, password, 0), Matching(UserName, name)), threads := s'.threads)
    requires s'.threads
        == s.threads[i := if Lookup(s.users, Matching(UserName, name)).None? then AddRow(name) else Done]
    ensures KeysAgree(s')
  {
    hide KeysAgree;
    if name in Keys(s.users, UserName) {
      FoundByKey(s.users, UserName, name);
      SignupRefused(s, i, s');
    } else {
      NewUser(s.users, User(name, password, 0));
      SignupAccepted(s, i, s', name);
    }
  }

  lemma NewUser(users: seq<User>, user: User)
    requires user.name !in Keys(users, UserName)
    ensures Lookup(users, Matching(UserName, user.name)).None?
    ensures UniqueKeys(users, UserName) ==> UniqueKeys(Inserted(users, user, Matching(UserName, user.name)), UserName)
    ensures Keys(Inserted(users, user, Matching(UserName, user.name)), UserName) == Keys(users, UserName) + {user.name}
  {
    FoundByKey(users, UserName, user.name);
    var after := Inserted(users, user, Matching(UserName, user.name));
    assert after == users + [user];
    forall k | k in Keys(users, UserName) + {user.name} ensures k in Keys(after, UserName) {
      if k == user.name {
        assert UserName(after[|users|]) == k;
      } else {
        var j :| 0 <= j < |users| && UserName(users[j]) == k;
        assert UserName(after[j]) == k;
      }
    }
    if UniqueKeys(users, UserName) {
      InsertRefines(users, UserName, user);
    }
  }

  lemma SignupRefused(s: Server, i: nat, s': Server)
    requires KeysAgree(s) && i < |s.threads| && s.threads[i].AddUser?
    requires s' == s.(threads := s.threads[i := Done])
    ensures KeysAgree(s')
  {
    SameHalf(s.threads, i, Done);
    hide HalfSignedUp, UniqueKeys, Keys;
  }

  lemma SignupAccepted(s: Server, i: nat, s': Server, name: Username)
    requires KeysAgree(s) && i < |s.threads| && s.threads[i].AddUser? && name !in Keys(s.users, UserName)
    requires s' == s.(users := s'.users, threads := s.threads[i := AddRow(name)])
    requires UniqueKeys(s.users, UserName) ==> UniqueKeys(s'.users, UserName)
    requires Keys(s'.users, UserName) == Keys(s.users, UserName) + {name}
    ensures KeysAgree(s')
  {
    NewHalf(s.threads, i, name);
    hide HalfSignedUp, UniqueKeys, Keys;
  }

  lemma NewHalf(threads: seq<Thread>, i: nat, name: Username)
    requires i < |threads| && !threads[i].AddRow?
    ensures forall k :: HalfSignedUp(threads[i := AddRow(name)], k) <==> HalfSignedUp(threads, k) || k == name
    ensures !HalfSignedUp(threads, name) ==> forall j :: 0 <= j < |threads| && threads[j].AddRow? ==>
        threads[j].name != name
  {
    var after := threads[i := AddRow(name)];
    assert after[i] == AddRow(name);
    forall k | HalfSignedUp(threads, k) ensures HalfSignedUp(after, k) {
      var j :| 0 <= j < |threads| && threads[j] == AddRow(k);
      assert after[j] == AddRow(k);
    }
    forall k | HalfSignedUp(after, k) ensures HalfSignedUp(threads, k) || k == name {
      var j :| 0 <= j < |after| && after[j] == AddRow(k);
      assert j != i ==> threads[j] == AddRow(k);
    }
    forall j | 0 <= j < |threads| && threads[j].AddRow? ensures HalfSignedUp(threads, threads[j].name) {
      assert threads[j] == AddRow(threads[j].name);
    }
  }

  lemma AddRowKeeps(g: real, s: Server, drift: int, i: nat, s': Server)
    requires g > 1.0 && Invariant(g, s, drift) && Advances(g, s, i, s') && s.threads[i].AddRow?
    ensures Invariant(g, s', drift + ThreadDrift(Board(s), s.threads[i]))
  {
    hide Total, Ascending, Find, AsMap, Delta, UniqueKeys;
    var name := s.threads[i].name;
    assert HalfSignedUp(s.threads, name);
    KeysOfMap(s.board, Name);
    KeysOfMap(s'.board, Name);
    hide Keys;
    AddKeeps(s.board, Entry(name, DEFAULT_ELO));
    RowsKept(s, i, s');
    BalanceKept(g, s, drift, i, s');
    SortedKept(s, i, s');
    RowKeys(s, i, s', name);
  }

  lemma RowKeys(s: Server, i: nat, s': Server, name: Username)
    requires KeysAgree(s) && i < |s.threads| && s.threads[i] == AddRow(name)
    requires s' == s.(board := s'.board, threads := s.threads[i := SortLast])
    requires UniqueKeys(s'.board, Name) && Keys(s'.board, Name) == Keys(s.board, Name) + {name}
    ensures KeysAgree(s')
  {
    OldHalf(s.threads, i, name);
    hide HalfSignedUp, UniqueKeys, Keys;
  }

  lemma OldHalf(threads: seq<Thread>, i: nat, name: Username)
    requires i < |threads| && threads[i] == AddRow(name)
    requires forall j, k :: 0 <= j < k < |threads| && threads[j].AddRow? && threads[k].AddRow? ==>
        threads[j].name != threads[k].name
    ensures HalfSignedUp(threads, name)
    ensures forall k :: HalfSignedUp(threads[i := SortLast], k) <==> HalfSignedUp(threads, k) && k != name
  {
    var after := threads[i := SortLast];
    forall k | HalfSignedUp(threads, k) && k != name ensures HalfSignedUp(after, k) {
      var j :| 0 <= j < |threads| && threads[j] == AddRow(k);
      assert after[j] == AddRow(k);
    }
    forall k | HalfSignedUp(after, k) ensures HalfSignedUp(threads, k) && k != name {
      var j :| 0 <= j < |after| && after[j] == AddRow(k);
      assert j != i && threads[j] == AddRow(k);
    }
  }

  lemma ReadKeeps(g: real, s: Server, drift: int, i: nat, s': Server)
    requires g > 1.0 && Invariant(g, s, drift) && Advances(g, s, i, s')
        && (s.threads[i].ReadWinner? || s.threads[i].ReadLoser?)
    ensures Invariant(g, s', drift + ThreadDrift(Board(s), s.threads[i]))
  {
    hide Total, Ascending, Find, AsMap, Delta, UniqueKeys, Lookup, Keys, HalfSignedUp;
    assert Found(s.threads[i]) <= Board(s).Keys;
    ReadRow(s.board, if s.threads[i].ReadWinner? then s.threads[i].winner else s.threads[i].loser);
    RowName(s.board);
    RowsKept(s, i, s');
    BalanceKept(g, s, drift, i, s');
    SortedKept(s, i, s');
    KeysKept(s, i, s');
  }

  lemma WriteWinnerKeeps(g: real, s: Server, drift: int, i: nat, s': Server)
    requires g > 1.0 && Invariant(g, s, drift) && Advances(g, s, i, s') && s.threads[i].WriteWinner?
    ensures Invariant(g, s', drift + ThreadDrift(Board(s), s.threads[i]))
  {
    hide Total, Ascending, Find, AsMap, Delta, UniqueKeys, Updated, Keys, HalfSignedUp;
    var t := s.threads[i];
    assert Found(t) <= Board(s).Keys;
    WriteKeeps(s.board, Entry(t.winner, t.winnerElo + Delta(g, t.winnerElo, t.loserElo)));
    RowsKept(s, i, s');
    BalanceKept(g, s, drift, i, s');
    SortedKept(s, i, s');
    KeysKept(s, i, s');
  }

  lemma WriteLoserKeeps(g: real, s: Server, drift: int, i: nat, s': Server)
    requires g > 1.0 && Invariant(g, s, drift) && Advances(g, s, i, s') && s.threads[i].WriteLoser?
    ensures Invariant(g, s', drift + ThreadDrift(Board(s), s.threads[i]))
  {
    hide Total, Ascending, Find, AsMap, Delta, UniqueKeys, Updated, Keys, HalfSignedUp;
    var t := s.threads[i];
    assert Found(t) <= Board(s).Keys;
    WriteKeeps(s.board, Entry(t.loser, t.loserElo - Delta(g, t.winnerElo, t.loserElo)));
    RowsKept(s, i, s');
    BalanceKept(g, s, drift, i, s');
    SortedKept(s, i, s');
    KeysKept(s, i, s');
  }

  lemma SortingKeeps(g: real, s: Server, drift: int, i: nat, s': Server)
    requires g > 1.0 && Invariant(g, s, drift) && Advances(g, s, i, s')
    requires s.threads[i].SortThenWriteLoser? || s.threads[i].SortLast?
    ensures Invariant(g, s', drift + ThreadDrift(Board(s), s.threads[i]))
  {
    hide Total, Ascending, Find, AsMap, Delta, UniqueKeys, Keys, HalfSignedUp, IsStableSort;
    assert Found(s.threads[i]) <= Board(s).Keys;
    SortKeeps(s.board, s'.board);
    RowsKept(s, i, s');
    BalanceKept(g, s, drift, i, s');
    SortedKept(s, i, s');
    KeysKept(s, i, s');
  }

  lemma AdvanceKeeps(g: real, s: Server, drift: int, i: nat, s': Server)
    requires g > 1.0 && Invariant(g, s, drift) && Advances(g, s, i, s')
    ensures Invariant(g, s', drift + ThreadDrift(Board(s), s.threads[i]))
  {
    hide Invariant;
    match s.threads[i] {
      case AddUser(_, _) => AddUserKeeps(g, s, drift, i, s');
      case AddRow(_) => AddRowKeeps(g, s, drift, i, s');
      case ReadWinner(_, _) => ReadKeeps(g, s, drift, i, s');
      case ReadLoser(_, _, _) => ReadKeeps(g, s, drift, i, s');
      case WriteWinner(_, _, _, _) => WriteWinnerKeeps(g, s, drift, i, s');
      case WriteLoser(_, _, _, _) => WriteLoserKeeps(g, s, drift, i, s');
      case SortThenWriteLoser(_, _, _, _) => SortingKeeps(g, s, drift, i, s');
      case SortLast => SortingKeeps(g, s, drift, i, s');
      case Done =>
    }
  }

  // A new thread has read and written nothing yet.
  lemma BeginKeeps(g: real, s: Server, drift: int, t: Thread)
    requires g > 1.0 && Invariant(g, s, drift) && (t.AddUser? || t.ReadWinner?)
    ensures Invariant(g, s.(threads := s.threads + [t]), drift)
  {
    hide Total, Ascending, AsMap, Delta, UniqueKeys, Keys;
    var s' := s.(threads := s.threads + [t]);
    OutstandingConcat(g, s.threads, [t]);
    assert AllOutstanding(g, [t]) == 0;
    forall name ensures HalfSignedUp(s'.threads, name) <==> HalfSignedUp(s.threads, name) {
      if HalfSignedUp(s.threads, name) {
        var k :| 0 <= k < |s.threads| && s.threads[k] == AddRow(name);
        assert s'.threads[k] == AddRow(name);
      }
    }
    if SortPending(s.threads) {
      var k :| 0 <= k < |s.threads| && (s.threads[k].SortLast? || s.threads[k].SortThenWriteLoser?);
      assert s'.threads[k] == s.threads[k];
    }
    hide HalfSignedUp, AllOutstanding;
  }

  lemma ProblemsKeep(g: real, s: Server, drift: int, problems: seq<Problem>)
    requires g > 1.0 && Invariant(g, s, drift) && UniqueKeys(problems, ProblemId)
    ensures Invariant(g, s.(problems := problems), drift)
  {
    hide Total, Ascending, AsMap, Delta, UniqueKeys, Keys, HalfSignedUp, AllOutstanding, Found;
  }

  lemma NextKeeps(g: real, s: Server, drift: int, a: Action, s': Server)
    requires g > 1.0 && Invariant(g, s, drift) && Next(g, s, a, s')
    ensures Invariant(g, s', drift + StepDrift(s, a))
  {
    hide ThreadStep, UniqueKeys, Lookup, Inserted, Updated, Deleted, Balanced, RowsStay, SortedWhenQuiet, ThreadDrift;
    assert UniqueKeys(s.problems, ProblemId);
    hide Invariant, KeysAgree;
    match a {
      case BeginSignup(name, password) => BeginKeeps(g, s, drift, AddUser(name, password));
      case BeginTransfer(w, l) => BeginKeeps(g, s, drift, ReadWinner(w, l));
      case Advance(i) => AdvanceKeeps(g, s, drift, i, s');
      case AddProblem(p) =>
        InsertRefines(s.problems, ProblemId, p);
        ProblemsKeep(g, s, drift, s'.problems);
      case EditProblem(p) =>
        UpdateRefines(s.problems, ProblemId, p);
        ProblemsKeep(g, s, drift, s'.problems);
      case RemoveProblem(id) =>
        DeleteRefines(s.problems, ProblemId, id);
        ProblemsKeep(g, s, drift, s'.problems);
    }
  }
}
