// What the table operations do to a sequence of records, and the keyed map they keep.
module RecordTable {
  import opened Bytes

  // Position of the first match, or |rs|.
  function Find<R>(rs: seq<R>, m: R -> bool): (k: nat)
    ensures k <= |rs|
    ensures forall i :: 0 <= i < k ==> !m(rs[i])
    ensures k < |rs| ==> m(rs[k])
  {
    if rs == [] || m(rs[0]) then 0 else 1 + Find(rs[1..], m)
  }

  function Lookup<R>(rs: seq<R>, m: R -> bool): Option<R> {
    var k := Find(rs, m);
    if k < |rs| then Some(rs[k]) else None
  }

  function Inserted<R>(rs: seq<R>, r: R, m: R -> bool): seq<R> {
    if Find(rs, m) < |rs| then rs else rs + [r]
  }

  function Updated<R>(rs: seq<R>, r: R, m: R -> bool): (u: seq<R>)
    ensures |u| == |rs|
  {
    var k := Find(rs, m);
    if k < |rs| then rs[k := r] else rs
  }

  // The last record takes the place of the deleted one.
  function Deleted<R>(rs: seq<R>, m: R -> bool): seq<R> {
    var k := Find(rs, m);
    if k < |rs| then rs[k := rs[|rs| - 1]][..|rs| - 1] else rs
  }

  // Position by position: the records before and behind the deleted one stay, except that the last one takes its place.
  lemma DeletedAt<R>(rs: seq<R>, m: R -> bool, k: nat, i: nat)
    requires k < |rs| && m(rs[k]) && (forall j :: 0 <= j < k ==> !m(rs[j])) && i < |rs| - 1
    ensures |Deleted(rs, m)| == |rs| - 1 && Deleted(rs, m)[i] == rs[if i == k then |rs| - 1 else i]
  {
    assert Find(rs, m) == k;
  }

  // ----- Keys -----

  predicate UniqueKeys<R, K(==)>(rs: seq<R>, key: R -> K) {
    forall i, j :: 0 <= i < j < |rs| ==> key(rs[i]) != key(rs[j])
  }

  function Matching<R, K(==)>(key: R -> K, k: K): R -> bool {
    r => key(r) == k
  }

  function Keys<R, K(==)>(rs: seq<R>, key: R -> K): set<K> {
    set i | 0 <= i < |rs| :: key(rs[i])
  }

  // The keyed map that a table with unique keys stands for.
  function AsMap<R, K(==)>(rs: seq<R>, key: R -> K): map<K, R> {
    map k | k in Keys(rs, key) :: KeyedRecord(rs, key, k)
  }

  function KeyedRecord<R, K(==)>(rs: seq<R>, key: R -> K, k: K): R
    requires k in Keys(rs, key)
  {
    FoundByKey(rs, key, k);
    rs[Find(rs, Matching(key, k))]
  }

  lemma FoundByKey<R, K>(rs: seq<R>, key: R -> K, k: K)
    ensures Find(rs, Matching(key, k)) < |rs| <==> k in Keys(rs, key)
  {
    if k in Keys(rs, key) {
      var i :| 0 <= i < |rs| && key(rs[i]) == k;
      assert Matching(key, k)(rs[i]);
    }
  }

  lemma FindAt<R, K>(rs: seq<R>, key: R -> K, i: nat)
    requires UniqueKeys(rs, key) && i < |rs|
    ensures Find(rs, Matching(key, key(rs[i]))) == i
  {
    var k := Find(rs, Matching(key, key(rs[i])));
    assert Matching(key, key(rs[i]))(rs[i]);
    assert k <= i && key(rs[k]) == key(rs[i]);
  }

  // With unique keys the record at any position is the one found by its key.
  lemma MapAt<R, K>(rs: seq<R>, key: R -> K, i: nat)
    requires UniqueKeys(rs, key) && i < |rs|
    ensures key(rs[i]) in AsMap(rs, key) && AsMap(rs, key)[key(rs[i])] == rs[i]
    ensures Find(rs, Matching(key, key(rs[i]))) == i
  {
    hide UniqueKeys, Find;
    FindAt(rs, key, i);
    assert key(rs[i]) in Keys(rs, key);
  }

  // A map that agrees with every record and has no other key is the table's map.
  lemma IsMap<R, K>(rs: seq<R>, key: R -> K, m: map<K, R>)
    requires UniqueKeys(rs, key)
    requires forall i :: 0 <= i < |rs| ==> key(rs[i]) in m && m[key(rs[i])] == rs[i]
    requires forall k :: k in m ==> k in Keys(rs, key)
    ensures AsMap(rs, key) == m
  {
    forall k | k in m
      ensures k in AsMap(rs, key) && AsMap(rs, key)[k] == m[k]
    {
      var i :| 0 <= i < |rs| && key(rs[i]) == k;
      MapAt(rs, key, i);
    }
  }

  lemma InsertRefines<R, K>(rs: seq<R>, key: R -> K, r: R)
    requires UniqueKeys(rs, key)
    ensures var m := AsMap(rs, key); var after := Inserted(rs, r, Matching(key, key(r)));
            UniqueKeys(after, key) && AsMap(after, key) == if key(r) in m then m else m[key(r) := r]
  {
    var m, after := AsMap(rs, key), Inserted(rs, r, Matching(key, key(r)));
    FoundByKey(rs, key, key(r));
    if key(r) !in m {
      forall i | 0 <= i < |rs| ensures key(rs[i]) in m && m[key(rs[i])] == rs[i] && key(rs[i]) != key(r) {
        MapAt(rs, key, i);
        assert key(rs[i]) in Keys(rs, key);
      }
      forall k | k in m[key(r) := r] ensures k in Keys(after, key) {
        if k == key(r) {
          assert key(after[|rs|]) == k;
        } else {
          var i :| 0 <= i < |rs| && key(rs[i]) == k;
          assert key(after[i]) == k;
        }
      }
      IsMap(after, key, m[key(r) := r]);
    }
  }

  lemma UpdateRefines<R, K>(rs: seq<R>, key: R -> K, r: R)
    requires UniqueKeys(rs, key)
    ensures var m := AsMap(rs, key); var after := Updated(rs, r, Matching(key, key(r)));
            UniqueKeys(after, key) && AsMap(after, key) == if key(r) in m then m[key(r) := r] else m
  {
    var m, after := AsMap(rs, key), Updated(rs, r, Matching(key, key(r)));
    FoundByKey(rs, key, key(r));
    if key(r) in m {
      var k := Find(rs, Matching(key, key(r)));
      forall i | 0 <= i < |rs|
        ensures key(after[i]) == key(rs[i]) && (i != k ==> m[key(rs[i])] == rs[i]) && key(rs[i]) in m
      {
        MapAt(rs, key, i);
      }
      forall k' | k' in m ensures k' in Keys(after, key) {
        var i :| 0 <= i < |rs| && key(rs[i]) == k';
        assert key(after[i]) == k';
      }
      IsMap(after, key, m[key(r) := r]);
    }
  }

  lemma DeleteRefines<R, K>(rs: seq<R>, key: R -> K, k: K)
    requires UniqueKeys(rs, key)
    ensures var after := Deleted(rs, Matching(key, k));
            UniqueKeys(after, key) && AsMap(after, key) == AsMap(rs, key) - {k}
  {
    var m, after := AsMap(rs, key), Deleted(rs, Matching(key, k));
    FoundByKey(rs, key, k);
    KeysOfMap(rs, key);
    var at := Find(rs, Matching(key, k));
    if at < |rs| {
      RemainingKeys(rs, key, at);
      hide UniqueKeys, AsMap, Keys, Find;
      forall i | 0 <= i < |after| ensures key(after[i]) in m - {k} && m[key(after[i])] == after[i] {
        MapAt(rs, key, Source(rs, at, i));
      }
      IsMap(after, key, m - {k});
    } else {
      assert m - {k} == m;
    }
  }

  // Where the record at position i of a table stood before record `at` was deleted.
  function Source<R>(rs: seq<R>, at: nat, i: nat): (j: nat)
    requires at < |rs| && i < |rs| - 1
    ensures j < |rs| && j != at
    ensures rs[at := rs[|rs| - 1]][..|rs| - 1][i] == rs[j]
  {
    if i == at then |rs| - 1 else i
  }

  lemma RemainingKeys<R, K>(rs: seq<R>, key: R -> K, at: nat)
    requires UniqueKeys(rs, key) && at < |rs|
    ensures var after := rs[at := rs[|rs| - 1]][..|rs| - 1];
            && UniqueKeys(after, key) && (forall i :: 0 <= i < |after| ==> key(after[i]) != key(rs[at]))
            && (forall k :: k in Keys(rs, key) && k != key(rs[at]) ==> k in Keys(after, key))
  {
    var last := |rs| - 1;
    var after := rs[at := rs[last]][..last];
    forall i, j | 0 <= i < j < |after| ensures key(after[i]) != key(after[j]) {
      DistinctKeys(rs, key, Source(rs, at, i), Source(rs, at, j));
    }
    forall i | 0 <= i < |after| ensures key(after[i]) != key(rs[at]) {
      DistinctKeys(rs, key, Source(rs, at, i), at);
    }
    forall k | k in Keys(rs, key) && k != key(rs[at]) ensures k in Keys(after, key) {
      var i :| 0 <= i < |rs| && key(rs[i]) == k;
      assert after[if i == last then at else i] == rs[i];
    }
  }

  lemma DistinctKeys<R, K>(rs: seq<R>, key: R -> K, i: nat, j: nat)
    requires UniqueKeys(rs, key) && i < |rs| && j < |rs| && i != j
    ensures key(rs[i]) != key(rs[j])
  {
  }

  // ----- Undoing an insertion -----

  // Deleting what was just inserted gives back the very same sequence, as the failed upload of a problem needs.
  lemma InsertThenDelete<R, K>(rs: seq<R>, key: R -> K, r: R)
    requires key(r) !in Keys(rs, key)
    ensures Deleted(Inserted(rs, r, Matching(key, key(r))), Matching(key, key(r))) == rs
  {
    FoundByKey(rs, key, key(r));
    var after := rs + [r];
    var at := Find(after, Matching(key, key(r)));
    forall i | 0 <= i < |rs| ensures !Matching(key, key(r))(after[i]) {
      assert key(rs[i]) in Keys(rs, key);
    }
    assert Matching(key, key(r))(after[|rs|]) && at == |rs|;
  }

  datatype Operation<R, K> = Insert(r: R) | Update(r: R) | Delete(k: K)

  function KeyOf<R, K>(op: Operation<R, K>, key: R -> K): K {
    match op
    case Insert(r) => key(r)
    case Update(r) => key(r)
    case Delete(k) => k
  }

  function Apply<R, K(==)>(rs: seq<R>, op: Operation<R, K>, key: R -> K): seq<R> {
    match op
    case Insert(r) => Inserted(rs, r, Matching(key, key(r)))
    case Update(r) => Updated(rs, r, Matching(key, key(r)))
    case Delete(k) => Deleted(rs, Matching(key, k))
  }

  function ApplyAll<R, K(==)>(rs: seq<R>, ops: seq<Operation<R, K>>, key: R -> K): seq<R>
    decreases |ops|
  {
    if ops == [] then rs else ApplyAll(Apply(rs, ops[0], key), ops[1..], key)
  }

  // The same operations on a map.
  function ApplyToMap<R, K(==)>(m: map<K, R>, op: Operation<R, K>, key: R -> K): map<K, R> {
    match op
    case Insert(r) => if key(r) in m then m else m[key(r) := r]
    case Update(r) => if key(r) in m then m[key(r) := r] else m
    case Delete(k) => m - {k}
  }

  function ApplyAllToMap<R, K(==)>(m: map<K, R>, ops: seq<Operation<R, K>>, key: R -> K): map<K, R>
    decreases |ops|
  {
    if ops == [] then m else ApplyAllToMap(ApplyToMap(m, ops[0], key), ops[1..], key)
  }

  // Every run of table operations keeps keys unique and does to the table what the same run does to a map.
  lemma {:induction false} RunRefinesMap<R, K>(rs: seq<R>, ops: seq<Operation<R, K>>, key: R -> K)
    requires UniqueKeys(rs, key)
    ensures UniqueKeys(ApplyAll(rs, ops, key), key)
    ensures AsMap(ApplyAll(rs, ops, key), key) == ApplyAllToMap(AsMap(rs, key), ops, key)
    decreases |ops|
  {
    if ops != [] {
      match ops[0] {
        case Insert(r) => InsertRefines(rs, key, r);
        case Update(r) => UpdateRefines(rs, key, r);
        case Delete(k) => DeleteRefines(rs, key, k);
      }
      RunRefinesMap(Apply(rs, ops[0], key), ops[1..], key);
    }
  }

  lemma {:induction false} OtherKeysCommute<R, K>(m: map<K, R>, ops: seq<Operation<R, K>>, key: R -> K, k: K)
    requires forall i :: 0 <= i < |ops| ==> KeyOf(ops[i], key) != k
    ensures ApplyAllToMap(m, ops, key) - {k} == ApplyAllToMap(m - {k}, ops, key)
    decreases |ops|
  {
    if ops != [] {
      OtherKeysCommute(ApplyToMap(m, ops[0], key), ops[1..], key, k);
      assert ApplyToMap(m, ops[0], key) - {k} == ApplyToMap(m - {k}, ops[0], key);
    }
  }

  lemma DeleteOne<R, K>(rs: seq<R>, key: R -> K, k: K)
    ensures ApplyAll(rs, [Delete(k)], key) == Deleted(rs, Matching(key, k))
  {
    assert ApplyAll(Apply(rs, Delete(k), key), [], key) == Deleted(rs, Matching(key, k));
  }

  lemma KeysOfMap<R, K>(rs: seq<R>, key: R -> K)
    ensures AsMap(rs, key).Keys == Keys(rs, key)
  {
  }

  // Deleting a failed insertion later, after any operations on other keys, leaves the contents those operations alone
  // would have given (the order of the records may differ).
  lemma RollbackAmongOthers<R, K>(rs: seq<R>, key: R -> K, r: R, ops: seq<Operation<R, K>>)
    requires UniqueKeys(rs, key) && key(r) !in Keys(rs, key)
    requires forall i :: 0 <= i < |ops| ==> KeyOf(ops[i], key) != key(r)
    ensures AsMap(ApplyAll(ApplyAll(Apply(rs, Insert(r), key), ops, key), [Delete(key(r))], key), key)
            == AsMap(ApplyAll(rs, ops, key), key)
  {
    var m, inserted := AsMap(rs, key), Apply(rs, Insert(r), key);
    DeleteOne(ApplyAll(inserted, ops, key), key, key(r));
    hide ApplyAll, ApplyAllToMap, UniqueKeys, AsMap, Deleted;
    assert key(r) !in m by { KeysOfMap(rs, key); }
    InsertRefines(rs, key, r);
    RunRefinesMap(inserted, ops, key);
    RunRefinesMap(rs, ops, key);
    DeleteRefines(ApplyAll(inserted, ops, key), key, key(r));
    OtherKeysCommute(m[key(r) := r], ops, key, key(r));
    assert m[key(r) := r] - {key(r)} == m;
  }

  // ----- Pages -----

  // The first `room` matches from position `start` on.
  function Collect<R>(rs: seq<R>, start: nat, room: nat, m: R -> bool): (page: seq<R>)
    ensures |page| <= room
    decreases |rs| - start
  {
    if start >= |rs| || room == 0 then []
    else if m(rs[start]) then [rs[start]] + Collect(rs, start + 1, room - 1, m)
    else Collect(rs, start + 1, room, m)
  }

  // Collecting behind what has been collected already.
  lemma CollectMore<R>(rs: seq<R>, page: seq<R>, start: nat, room: nat, m: R -> bool)
    ensures page + Collect(rs, start, room, m)
            == if start >= |rs| || room == 0 then page
               else if m(rs[start]) then (page + [rs[start]]) + Collect(rs, start + 1, room - 1, m)
               else page + Collect(rs, start + 1, room, m)
  {
    if start < |rs| && room > 0 && m(rs[start]) {
      var more := Collect(rs, start + 1, room - 1, m);
      assert page + ([rs[start]] + more) == (page + [rs[start]]) + more;
    }
  }

  // The raw position at which page p starts, whatever the filter lets through.
  function PageStart(p: nat, perPage: nat): nat
    requires p >= 1
  {
    (p - 1) * perPage
  }

  function Page<R>(rs: seq<R>, p: nat, perPage: nat, m: R -> bool): seq<R>
    requires p >= 1
  {
    Collect(rs, PageStart(p, perPage), perPage, m)
  }

  function All<R>(): R -> bool { _ => true }

  lemma {:induction false} CollectAll<R>(rs: seq<R>, start: nat, room: nat)
    requires start <= |rs|
    ensures Collect(rs, start, room, All()) == rs[start..if start + room <= |rs| then start + room else |rs|]
    decreases room
  {
    if start < |rs| && room > 0 {
      CollectAll(rs, start + 1, room - 1);
    }
  }

  function Pages<R>(rs: seq<R>, n: nat, perPage: nat): seq<R> {
    if n == 0 then [] else Pages(rs, n - 1, perPage) + Page(rs, n, perPage, All())
  }

  // Without a filter the pages are consecutive slices: the first n of them are the first n * perPage records.
  lemma {:induction false} PagesPartition<R>(rs: seq<R>, n: nat, perPage: nat)
    ensures Pages(rs, n, perPage) == rs[..if n * perPage <= |rs| then n * perPage else |rs|]
  {
    if n > 0 {
      PagesPartition(rs, n - 1, perPage);
      var start := PageStart(n, perPage);
      assert n * perPage == start + perPage;
      if start <= |rs| {
        CollectAll(rs, start, perPage);
      }
    }
  }

  lemma {:induction false} CollectReaches<R>(rs: seq<R>, start: nat, room: nat, m: R -> bool, i: nat)
    requires start <= i < start + room && i < |rs| && m(rs[i])
    ensures rs[i] in Collect(rs, start, room, m)
    decreases i - start
  {
    if start < i {
      CollectReaches(rs, start + 1, if m(rs[start]) then room - 1 else room, m, i);
    }
  }

  // With a filter every match is on the page of its raw position, so nothing is missed.
  lemma FilteredPagesCover<R>(rs: seq<R>, perPage: nat, m: R -> bool, i: nat)
    requires perPage > 0 && i < |rs| && m(rs[i])
    ensures rs[i] in Page(rs, i / perPage + 1, perPage, m)
  {
    hide Collect, PageStart;
    OnItsPage(perPage, i);
    CollectReaches(rs, PageStart(i / perPage + 1, perPage), perPage, m, i);
  }

  lemma OnItsPage(perPage: nat, i: nat)
    requires perPage > 0
    ensures PageStart(i / perPage + 1, perPage) <= i < PageStart(i / perPage + 1, perPage) + perPage
  {
    assert i == i / perPage * perPage + i % perPage;
  }

  // ----- When pages share records -----

  // The positions of the first `room` matches from `start` on.
  function Positions<R>(rs: seq<R>, start: nat, room: nat, m: R -> bool): (at: seq<nat>)
    ensures forall k :: 0 <= k < |at| ==> start <= at[k] < |rs| && m(rs[at[k]])
    decreases |rs| - start
  {
    if start >= |rs| || room == 0 then []
    else if m(rs[start]) then [start] + Positions(rs, start + 1, room - 1, m)
    else Positions(rs, start + 1, room, m)
  }

  // A page holds the records at these positions, in this order.
  lemma {:induction false} CollectedAt<R>(rs: seq<R>, start: nat, room: nat, m: R -> bool)
    ensures var at := Positions(rs, start, room, m); var page := Collect(rs, start, room, m);
            |page| == |at| && forall k :: 0 <= k < |at| ==> page[k] == rs[at[k]]
    decreases |rs| - start
  {
    if start < |rs| && room > 0 {
      CollectedAt(rs, start + 1, if m(rs[start]) then room - 1 else room, m);
    }
  }

  // How many records in rs[start..end] match.
  function Matches<R>(rs: seq<R>, start: nat, end: nat, m: R -> bool): nat
    decreases end - start
  {
    if start >= end || start >= |rs| then 0
    else (if m(rs[start]) then 1 else 0) + Matches(rs, start + 1, end, m)
  }

  predicate MatchBehind<R>(rs: seq<R>, end: nat, m: R -> bool) {
    exists i :: end <= i < |rs| && m(rs[i])
  }

  // Some of these positions is at or behind end.
  predicate Reaches(at: seq<nat>, end: nat) {
    exists k :: 0 <= k < |at| && at[k] >= end
  }

  lemma ReachesOneMore(i: nat, at: seq<nat>, end: nat)
    ensures Reaches([i] + at, end) <==> i >= end || Reaches(at, end)
  {
    if Reaches(at, end) {
      var k :| 0 <= k < |at| && at[k] >= end;
      assert ([i] + at)[k + 1] >= end;
    }
    if i >= end {
      assert ([i] + at)[0] >= end;
    }
  }

  // Collecting goes past `end` exactly if there is room left there and something to put in it.
  lemma {:induction false} CollectsPast<R>(rs: seq<R>, start: nat, room: nat, m: R -> bool, end: nat)
    requires start <= end
    ensures Reaches(Positions(rs, start, room, m), end)
            <==> Matches(rs, start, end, m) < room && MatchBehind(rs, end, m)
    decreases |rs| - start
  {
    if start >= |rs| || room == 0 {
    } else if start < end {
      hide Reaches, MatchBehind;
      var left := if m(rs[start]) then room - 1 else room;
      CollectsPast(rs, start + 1, left, m, end);
      ReachesOneMore(start, Positions(rs, start + 1, left, m), end);
    } else if m(rs[start]) {
      ReachesOneMore(start, Positions(rs, start + 1, room - 1, m), end);
    } else {
      CollectsPast(rs, start + 1, room, m, start + 1);
    }
  }

  // Between its start and any position it contains, a page misses no match.
  lemma {:induction false} NoGaps<R>(rs: seq<R>, start: nat, room: nat, m: R -> bool, i: nat, j: nat)
    requires i in Positions(rs, start, room, m) && start <= j <= i && m(rs[j])
    ensures j in Positions(rs, start, room, m)
    decreases |rs| - start
  {
    if start < j {
      NoGaps(rs, start + 1, if m(rs[start]) then room - 1 else room, m, i, j);
    }
  }

  // The first match from a position on, if there is one.
  lemma {:induction false} FirstMatch<R>(rs: seq<R>, start: nat, m: R -> bool) returns (j: nat)
    requires MatchBehind(rs, start, m)
    ensures start <= j < |rs| && m(rs[j]) && forall i :: start <= i < j ==> !m(rs[i])
    decreases |rs| - start
  {
    var i :| start <= i < |rs| && m(rs[i]);
    if m(rs[start]) {
      j := start;
    } else {
      j := FirstMatch(rs, start + 1, m);
    }
  }

  predicate Share<R>(rs: seq<R>, start1: nat, start2: nat, perPage: nat, m: R -> bool) {
    exists i :: i in Positions(rs, start1, perPage, m) && i in Positions(rs, start2, perPage, m)
  }

  // Pages p < q contain the same record of the table exactly if fewer records than a page holds match between their
  // starts and some record matches from the start of the later page on.
  lemma PagesShare<R>(rs: seq<R>, p: nat, q: nat, perPage: nat, m: R -> bool)
    requires 1 <= p < q && perPage > 0
    ensures Share(rs, PageStart(p, perPage), PageStart(q, perPage), perPage, m)
            <==> Matches(rs, PageStart(p, perPage), PageStart(q, perPage), m) < perPage
                 && MatchBehind(rs, PageStart(q, perPage), m)
  {
    Scale(p - 1, q - 1, perPage);
    WindowsShare(rs, PageStart(p, perPage), PageStart(q, perPage), perPage, m);
  }

  lemma WindowsShare<R>(rs: seq<R>, start1: nat, start2: nat, perPage: nat, m: R -> bool)
    requires start1 <= start2 && perPage > 0
    ensures Share(rs, start1, start2, perPage, m)
            <==> Matches(rs, start1, start2, m) < perPage && MatchBehind(rs, start2, m)
  {
    hide Matches, Positions;
    CollectsPast(rs, start1, perPage, m, start2);
    var at1, at2 := Positions(rs, start1, perPage, m), Positions(rs, start2, perPage, m);
    if Share(rs, start1, start2, perPage, m) {
      var i :| i in at1 && i in at2;
      assert Reaches(at1, start2);
    }
    if Matches(rs, start1, start2, m) < perPage && MatchBehind(rs, start2, m) {
      var x :| 0 <= x < |at1| && at1[x] >= start2;
      var j := FirstMatch(rs, start2, m);
      NoGaps(rs, start1, perPage, m, at1[x], j);
      CollectsPast(rs, start2, perPage, m, start2);
      NothingBefore(rs, start2, m);
      var y :| 0 <= y < |at2| && at2[y] >= start2;
      NoGaps(rs, start2, perPage, m, at2[y], j);
    }
  }

  lemma NothingBefore<R>(rs: seq<R>, start: nat, m: R -> bool)
    ensures Matches(rs, start, start, m) == 0
  {
  }

  // Consecutive pages share nothing exactly if no record of the first one's window fails the filter, or nothing behind
  // that window passes it.
  lemma ConsecutivePagesAreDisjoint<R>(rs: seq<R>, p: nat, perPage: nat, m: R -> bool)
    requires p >= 1 && perPage > 0
    ensures var start := PageStart(p, perPage);
            !Share(rs, start, PageStart(p + 1, perPage), perPage, m)
            <==> || (forall i :: start <= i < start + perPage && i < |rs| ==> m(rs[i]))
                 || !MatchBehind(rs, start + perPage, m)
  {
    var start := PageStart(p, perPage);
    assert PageStart(p + 1, perPage) == start + perPage;
    hide Positions, Share;
    WindowsShare(rs, start, start + perPage, perPage, m);
    AllMatch(rs, start, start + perPage, m);
  }

  lemma {:induction false} AllMatch<R>(rs: seq<R>, start: nat, end: nat, m: R -> bool)
    requires start <= end
    ensures Matches(rs, start, end, m) <= end - start
    ensures end <= |rs| ==> (Matches(rs, start, end, m) == end - start <==> forall i :: start <= i < end ==> m(rs[i]))
    decreases end - start
  {
    if start < end {
      AllMatch(rs, start + 1, end, m);
    }
  }

  // For instance, a page of two that skips a record shows the first record of the next page.
  lemma FilteredPagesOverlap()
    ensures var rs := [0, 1, 1]; var odd := (n: int) => n % 2 == 1;
            Page(rs, 1, 2, odd) == [1, 1] && Page(rs, 2, 2, odd) == [1] && Share(rs, 0, 2, 2, odd)
  {
    var rs, odd := [0, 1, 1], (n: int) => n % 2 == 1;
    assert Collect(rs, 2, 1, odd) == [1] + Collect(rs, 3, 0, odd) == [1];
    assert Collect(rs, 1, 2, odd) == [1] + Collect(rs, 2, 1, odd);
    assert Collect(rs, 2, 2, odd) == [1] + Collect(rs, 3, 1, odd);
    assert Matches(rs, 1, 2, odd) == 1 && odd(rs[2]);
    WindowsShare(rs, 0, 2, 2, odd);
  }
}
