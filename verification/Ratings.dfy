// Ratings on the leaderboard: their sum, and the transfer that ends a duel.
module Ratings {
  import opened Bytes
  import opened RecordTable
  import opened StableSort
  import opened Leaderboard
  import Elo

  type Username = bytes

  const DEFAULT_ELO: int := 1000
  const K_FACTOR: nat := 50

  // Points a transfer moves.
  function Delta(g: real, winnerElo: int, loserElo: int): int
    requires g > 1.0
  {
    Elo.Change(g, winnerElo, loserElo, 1, K_FACTOR)
  }

  // ----- Sums of ratings -----

  function Total(board: seq<Entry>): int {
    if board == [] then 0 else board[0].elo + Total(board[1..])
  }

  lemma {:induction false} TotalConcat(a: seq<Entry>, b: seq<Entry>)
    ensures Total(a + b) == Total(a) + Total(b)
  {
    if a == [] {
      assert a + b == b;
    } else {
      assert (a + b)[1..] == a[1..] + b;
      TotalConcat(a[1..], b);
    }
  }

  lemma TotalAround(board: seq<Entry>, i: nat)
    requires i < |board|
    ensures Total(board) == Total(Without(board, i)) + board[i].elo
  {
    SplitAt(board, i);
    TotalOfParts(board[..i], board[i], board[i + 1..]);
  }

  lemma TotalOfParts(head: seq<Entry>, e: Entry, tail: seq<Entry>)
    ensures Total(head + ([e] + tail)) == Total(head + tail) + e.elo
  {
    TotalConcat(head, [e] + tail);
    TotalConcat(head, tail);
    assert ([e] + tail)[1..] == tail;
  }

  lemma TotalUpdate(board: seq<Entry>, i: nat, e: Entry)
    requires i < |board|
    ensures Total(board[i := e]) == Total(board) - board[i].elo + e.elo
  {
    TotalAround(board, i);
    TotalAround(board[i := e], i);
    assert Without(board[i := e], i) == Without(board, i);
  }

  // Rearranging entries does not change their sum.
  lemma {:induction false} TotalOfPermutation(a: seq<Entry>, b: seq<Entry>)
    requires multiset(a) == multiset(b)
    ensures Total(a) == Total(b) && |a| == |b|
    decreases |a|
  {
    hide Total, Without;
    SameLength(a, b);
    if a == [] {
      assert b == [];
    } else {
      var i := PlaceOf(a, b);
      TotalAround(a, 0);
      TotalAround(b, i);
      TotalOfPermutation(Without(a, 0), Without(b, i));
    }
  }

  // ----- What single table operations do to the board -----

  // Sorting moves rows and changes nothing else.
  lemma SortKeeps(before: seq<Entry>, after: seq<Entry>)
    requires UniqueKeys(before, Name) && IsStableSort(before, after, Compare)
    ensures UniqueKeys(after, Name) && AsMap(after, Name) == AsMap(before, Name)
    ensures |after| == |before| && Total(after) == Total(before) && Ascending(after)
  {
    TotalOfPermutation(before, after);
    SortedIsAscending(before, after);
    var at, pos :| Witness(before, after, at, pos, Compare);
    hide Total, Find, Ascending, AsMap, StrictInversions, Ordered;
    ArrangedKeys(before, after, at, pos);
  }

  // Moving rows around does not change the map they stand for.
  lemma ArrangedKeys(before: seq<Entry>, after: seq<Entry>, at: seq<nat>, pos: seq<nat>)
    requires UniqueKeys(before, Name) && Arrangement(before, after, at, pos)
    ensures UniqueKeys(after, Name) && AsMap(after, Name) == AsMap(before, Name)
  {
    hide Find, AsMap, Keys;
    forall p, q | 0 <= p < q < |after| ensures Name(after[p]) != Name(after[q]) {
      assert pos[at[p]] == p && pos[at[q]] == q;
    }
    forall p | 0 <= p < |after|
      ensures Name(after[p]) in AsMap(before, Name) && AsMap(before, Name)[Name(after[p])] == after[p]
    {
      MapAt(before, Name, at[p]);
    }
    forall k | k in AsMap(before, Name) ensures k in Keys(after, Name) {
      KeysOfMap(before, Name);
      KeyMoved(before, after, at, pos, k);
    }
    IsMap(after, Name, AsMap(before, Name));
  }

  lemma KeyMoved(before: seq<Entry>, after: seq<Entry>, at: seq<nat>, pos: seq<nat>, k: Username)
    requires Arrangement(before, after, at, pos) && k in Keys(before, Name)
    ensures k in Keys(after, Name)
  {
    var i :| 0 <= i < |before| && Name(before[i]) == k;
    assert after[pos[i]] == before[at[pos[i]]] == before[i];
  }

  // Writing a row that exists changes that row and the sum by the difference.
  lemma WriteKeeps(board: seq<Entry>, e: Entry)
    requires UniqueKeys(board, Name) && e.username in AsMap(board, Name)
    ensures var after := Updated(board, e, Matching(Name, e.username));
            && UniqueKeys(after, Name) && AsMap(after, Name) == AsMap(board, Name)[e.username := e]
            && |after| == |board| && Total(after) == Total(board) - AsMap(board, Name)[e.username].elo + e.elo
  {
    hide Total;
    UpdateRefines(board, Name, e);
    FoundByKey(board, Name, e.username);
    var k := Find(board, Matching(Name, e.username));
    TotalUpdate(board, k, e);
  }

  lemma AddKeeps(board: seq<Entry>, e: Entry)
    requires UniqueKeys(board, Name) && e.username !in AsMap(board, Name)
    ensures var after := Inserted(board, e, Matching(Name, e.username));
            && UniqueKeys(after, Name) && AsMap(after, Name) == AsMap(board, Name)[e.username := e]
            && |after| == |board| + 1 && Total(after) == Total(board) + e.elo
  {
    InsertRefines(board, Name, e);
    FoundByKey(board, Name, e.username);
    TotalConcat(board, [e]);
    assert Total([e]) == e.elo;
  }

  // Reading a row by name finds it exactly when the map has it.
  lemma ReadRow(board: seq<Entry>, name: Username)
    requires UniqueKeys(board, Name)
    ensures Lookup(board, Matching(Name, name))
            == if name in AsMap(board, Name) then Some(AsMap(board, Name)[name]) else None
  {
    FoundByKey(board, Name, name);
  }

  // ----- updateDuelElos, run alone -----

  // The ratings after a transfer. A player who is both winner and loser ends up with the loser's rating, because the
  // second write is computed from what was read before the first.
  function AfterTransfer(g: real, board: map<Username, Entry>, winner: Username, loser: Username): map<Username, Entry>
    requires g > 1.0
  {
    if winner in board && loser in board then
      var we, le := board[winner].elo, board[loser].elo;
      board[winner := Entry(winner, we + Delta(g, we, le))][loser := Entry(loser, le - Delta(g, we, le))]
    else board
  }

  // The integer nearest to 50 / (1 + p), the larger one of two.
  ghost predicate NearestShare(p: real, gain: int) {
    100.0 - (1.0 + p) < 2.0 * (1.0 + p) * gain as real <= 100.0 + (1.0 + p)
  }

  // What a transfer does to the two rows, in terms of the two ratings: with p for g to the power of the winner's lead,
  // the winner's row gains the integer nearest to 50 / (1 + p), which is at most 50, and the loser's row loses as much.
  ghost predicate Transferred(g: real, before: map<Username, Entry>, after: map<Username, Entry>, winner: Username,
      loser: Username)
    requires g > 1.0 && winner in before && loser in before
  {
    && after.Keys == before.Keys
    && (forall name :: name in before && name != winner && name != loser ==> after[name] == before[name])
    && var p, gain := Elo.Power(g, before[winner].elo - before[loser].elo), after[winner].elo - before[winner].elo;
       && after[winner].username == winner && after[loser] == Entry(loser, before[loser].elo - gain)
       && 0 <= gain <= 50 && NearestShare(p, gain)
  }

  lemma TransferMovesPoints(g: real, board: map<Username, Entry>, winner: Username, loser: Username)
    requires g > 1.0 && winner in board && loser in board
    ensures winner != loser ==> Transferred(g, board, AfterTransfer(g, board, winner, loser), winner, loser)
    ensures winner == loser ==>
        AfterTransfer(g, board, winner, winner) == board[winner := Entry(winner, board[winner].elo - 25)]
  {
    DeltaMeaning(g, board[winner].elo, board[loser].elo);
    DeltaBounds(g, board[winner].elo, board[loser].elo);
    hide Delta, Elo.Power, NearestShare;
  }

  // The points moved: the integer nearest to 50 / (1 + p) for a lead of power p, and the larger the lead, the fewer.
  lemma DeltaMeaning(g: real, winnerElo: int, loserElo: int)
    requires g > 1.0
    ensures NearestShare(Elo.Power(g, winnerElo - loserElo), Delta(g, winnerElo, loserElo))
    ensures forall w, l :: w - l >= winnerElo - loserElo ==> Delta(g, w, l) <= Delta(g, winnerElo, loserElo)
  {
    Elo.WinPoints(g, winnerElo, loserElo, 50);
    forall w, l | w - l >= winnerElo - loserElo ensures Delta(g, w, l) <= Delta(g, winnerElo, loserElo) {
      Elo.LeadShrinksGain(g, winnerElo, loserElo, w, l, 50);
    }
  }

  // The same for two transfers: the winner who is further ahead gains no more.
  lemma FavouriteGainsLess(g: real, m1: map<Username, Entry>, w1: Username, l1: Username, m2: map<Username, Entry>,
      w2: Username, l2: Username)
    requires g > 1.0 && w1 in m1 && l1 in m1 && w1 != l1 && w2 in m2 && l2 in m2 && w2 != l2
    requires m1[w1].elo - m1[l1].elo <= m2[w2].elo - m2[l2].elo
    ensures AfterTransfer(g, m1, w1, l1)[w1].elo - m1[w1].elo >= AfterTransfer(g, m2, w2, l2)[w2].elo - m2[w2].elo
  {
    hide Delta, NearestShare;
    DeltaMeaning(g, m1[w1].elo, m1[l1].elo);
  }

  // A rating that a transfer can change without leaving the range of an int.
  predicate HasRoom(board: map<Username, Entry>, name: Username) {
    name in board ==> INT_MIN + K_FACTOR <= board[name].elo <= INT_MAX - K_FACTOR
  }

  method UpdateDuelElos(g: real, file: LeaderboardFile, winner: Username, loser: Username, garbage1: bytes,
      garbage2: bytes)
    returns (ok: bool)
    requires g > 1.0 && file.Valid() && UniqueKeys(file.Entries(), Name)
    requires FitsField(winner) && FitsField(loser)
    requires |garbage1| == NAME_SIZE - 1 - |winner| && |garbage2| == NAME_SIZE - 1 - |loser|
    requires HasRoom(AsMap(file.Entries(), Name), winner) && HasRoom(AsMap(file.Entries(), Name), loser)
    modifies file.table
    ensures file.Valid() && UniqueKeys(file.Entries(), Name)
    ensures ok <==> winner in old(AsMap(file.Entries(), Name)) && loser in old(AsMap(file.Entries(), Name))
    ensures AsMap(file.Entries(), Name) == AfterTransfer(g, old(AsMap(file.Entries(), Name)), winner, loser)
    ensures ok && winner != loser ==>
        Transferred(g, old(AsMap(file.Entries(), Name)), AsMap(file.Entries(), Name), winner, loser)
    ensures ok ==> Ascending(file.Entries())
    ensures !ok ==> file.Entries() == old(file.Entries())
    ensures Total(file.Entries()) == old(Total(file.Entries())) - if ok && winner == loser then 25 else 0
  {
    hide UniqueKeys, AsMap, Find, Lookup, Updated, Keys, IsStableSort, Total, Ascending, LeaderboardFile.Entries, Delta,
        Transferred;
    ghost var board := file.Entries();
    ReadRow(board, winner);
    ReadRow(board, loser);
    RowName(board);
    var winnerEntry := file.GetEntry(winner);
    var loserEntry := file.GetEntry(loser);
    if winnerEntry.None? || loserEntry.None? {
      return false;
    }
    var winnerElo, loserElo := winnerEntry.value.elo, loserEntry.value.elo;
    var change := Delta(g, winnerElo, loserElo);
    DeltaBounds(g, winnerElo, loserElo);
    WriteKeeps(board, Entry(winner, winnerElo + change));
    var _, unsorted1 := file.UpdateEntry(Entry(winner, winnerElo + change), garbage1);
    SortKeeps(unsorted1, file.Entries());
    WriteKeeps(file.Entries(), Entry(loser, loserElo - change));
    var _, unsorted2 := file.UpdateEntry(Entry(loser, loserElo - change), garbage2);
    SortKeeps(unsorted2, file.Entries());
    TransferMovesPoints(g, AsMap(board, Name), winner, loser);
    ok := true;
  }

  lemma DeltaBounds(g: real, winnerElo: int, loserElo: int)
    requires g > 1.0
    ensures 0 <= Delta(g, winnerElo, loserElo) <= K_FACTOR
    ensures winnerElo == loserElo ==> Delta(g, winnerElo, loserElo) == K_FACTOR / 2
  {
    Elo.WinBounds(g, winnerElo, loserElo, K_FACTOR);
    Elo.EvenGame(g, winnerElo, K_FACTOR);
  }

  lemma RowName(board: seq<Entry>)
    ensures forall k :: k in AsMap(board, Name) ==> AsMap(board, Name)[k].username == k
  {
  }

  // ----- Transfers that overlap -----

  // A write of the row of `name`, computed from a rating that was read before any of the writes.
  datatype RowWrite = RowWrite(name: Username, change: int)

  // The board after such writes, m being what was read.
  function AfterWrites(board: seq<Entry>, m: map<Username, Entry>, writes: seq<RowWrite>): seq<Entry>
    requires forall i :: 0 <= i < |writes| ==> writes[i].name in m
  {
    if writes == [] then board
    else
      var n := |writes| - 1;
      var w := writes[n];
      Updated(AfterWrites(board, m, writes[..n]), Entry(w.name, m[w.name].elo + w.change), Matching(Name, w.name))
  }

  // The change of the last write of that row, 0 if there is none.
  function LastChange(writes: seq<RowWrite>, name: Username): int {
    if writes == [] then 0
    else
      var w := writes[|writes| - 1];
      if w.name == name then w.change else LastChange(writes[..|writes| - 1], name)
  }

  predicate WritesRow(writes: seq<RowWrite>, name: Username) {
    exists i :: 0 <= i < |writes| && writes[i].name == name
  }

  // The sum of the changes that no later write of the same row undoes.
  function Surviving(writes: seq<RowWrite>): int {
    if writes == [] then 0
    else (if WritesRow(writes[1..], writes[0].name) then 0 else writes[0].change) + Surviving(writes[1..])
  }

  // One more write undoes the last one of its row.
  lemma {:induction false} SurvivingAppend(writes: seq<RowWrite>, w: RowWrite)
    ensures Surviving(writes + [w]) == Surviving(writes) - LastChange(writes, w.name) + w.change
    decreases |writes|
  {
    if writes == [] {
      assert [] + [w] == [w];
    } else {
      var rest, all := writes[1..], writes + [w];
      assert all[1..] == rest + [w];
      SurvivingAppend(rest, w);
      LastChangeFirst(writes, w.name);
      if !WritesRow(rest, w.name) {
        NoLastChange(rest, w.name);
      }
      OneMoreWrite(rest, w, writes[0].name);
    }
  }

  lemma OneMoreWrite(writes: seq<RowWrite>, w: RowWrite, name: Username)
    ensures WritesRow(writes + [w], name) <==> WritesRow(writes, name) || w.name == name
  {
    if WritesRow(writes, name) {
      var i :| 0 <= i < |writes| && writes[i].name == name;
      assert (writes + [w])[i].name == name;
    }
    if w.name == name {
      assert (writes + [w])[|writes|].name == name;
    }
  }

  lemma {:induction false} NoLastChange(writes: seq<RowWrite>, name: Username)
    requires !WritesRow(writes, name)
    ensures LastChange(writes, name) == 0
    decreases |writes|
  {
    if writes != [] {
      var n := |writes| - 1;
      assert writes == writes[..n] + [writes[n]];
      OneMoreWrite(writes[..n], writes[n], name);
      NoLastChange(writes[..n], name);
    }
  }

  lemma {:induction false} LastChangeFirst(writes: seq<RowWrite>, name: Username)
    requires writes != []
    ensures LastChange(writes, name)
            == if WritesRow(writes[1..], name) || writes[0].name != name then LastChange(writes[1..], name)
               else writes[0].change
    decreases |writes|
  {
    var n := |writes| - 1;
    if n > 0 {
      LastChangeFirst(writes[..n], name);
      assert writes[..n][1..] == writes[1..][..n - 1];
      assert writes[1..] == writes[..n][1..] + [writes[n]];
      OneMoreWrite(writes[..n][1..], writes[n], name);
    }
  }

  // Any number of writes in any order, by any number of transfers that all read before the first write: the sum of
  // ratings changes by exactly what survives, and every row ends with the change of its last write.
  lemma {:induction false} OverlapAccount(board: seq<Entry>, writes: seq<RowWrite>)
    requires UniqueKeys(board, Name) && forall i :: 0 <= i < |writes| ==> writes[i].name in AsMap(board, Name)
    ensures var m := AsMap(board, Name); var after := AfterWrites(board, m, writes);
            && UniqueKeys(after, Name) && AsMap(after, Name).Keys == m.Keys
            && (forall k :: k in m ==> AsMap(after, Name)[k].elo == m[k].elo + LastChange(writes, k))
            && Total(after) == Total(board) + Surviving(writes)
    decreases |writes|
  {
    hide UniqueKeys, AsMap, Find, Updated, Keys, Total, Surviving;
    if writes == [] {
      NoWrites();
    } else {
      var n, m := |writes| - 1, AsMap(board, Name);
      OverlapAccount(board, writes[..n]);
      WriteKeeps(AfterWrites(board, m, writes[..n]), Entry(writes[n].name, m[writes[n].name].elo + writes[n].change));
      SurvivingAppend(writes[..n], writes[n]);
      assert writes == writes[..n] + [writes[n]];
    }
  }

  lemma NoWrites()
    ensures Surviving([]) == 0
  {
  }

  // The four writes of two such transfers, the losers' rows being written last.
  function TwoTransfers(w1: Username, l1: Username, d1: int, w2: Username, l2: Username, d2: int): seq<RowWrite> {
    [RowWrite(w1, d1), RowWrite(w2, d2), RowWrite(l1, -d1), RowWrite(l2, -d2)]
  }

  // For instance: sharing the winner loses the points of the first transfer, sharing the loser makes them out of
  // nothing, and sharing both does neither. Between equal ratings that is 25 points.
  lemma SharedPlayers(g: real, elo: int, w1: Username, l1: Username, w2: Username, l2: Username)
    requires g > 1.0 && w1 != l1 && w2 != l2 && w1 != l2 && w2 != l1
    ensures var d := Delta(g, elo, elo);
            Surviving(TwoTransfers(w1, l1, d, w2, l2, d)) == (if l1 == l2 then 25 else 0) - (if w1 == w2 then 25 else 0)
  {
    DeltaBounds(g, elo, elo);
    hide Delta, WritesRow;
    var d := Delta(g, elo, elo);
    var a, b, x, y := RowWrite(w1, d), RowWrite(w2, d), RowWrite(l1, -d), RowWrite(l2, -d);
    Unfolded(a, [b, x, y]);
    Unfolded(b, [x, y]);
    Unfolded(x, [y]);
    Unfolded(y, []);
    assert [a] + [b, x, y] == [a, b, x, y] && [b] + [x, y] == [b, x, y] && [x] + [y] == [x, y] && [y] + [] == [y];
    RowsOf(b, x, y);
    NoWrites();
  }

  lemma Unfolded(w: RowWrite, rest: seq<RowWrite>)
    ensures Surviving([w] + rest) == (if WritesRow(rest, w.name) then 0 else w.change) + Surviving(rest)
  {
    assert ([w] + rest)[1..] == rest;
  }

  lemma RowsOf(b: RowWrite, x: RowWrite, y: RowWrite)
    ensures forall k :: WritesRow([b, x, y], k) <==> k == b.name || k == x.name || k == y.name
    ensures forall k :: WritesRow([x, y], k) <==> k == x.name || k == y.name
    ensures forall k :: WritesRow([y], k) <==> k == y.name
    ensures forall k :: !WritesRow([], k)
  {
    assert [b, x, y][0] == b && [b, x, y][1] == x && [b, x, y][2] == y;
    assert [x, y][0] == x && [x, y][1] == y && [y][0] == y;
  }
}
