// The leaderboard table: typed entries in fixed-size records, re-sorted after every write.
module Leaderboard {
  import opened Bytes
  import opened RecordTable
  import opened StableSort
  import opened RecordFile

  datatype Entry = Entry(username: bytes, elo: int)

  const NAME_SIZE: nat := 100
  const ENTRY_SIZE: nat := 104

  // A user name that strcpy can store in the 100-byte field.
  predicate FitsField(name: bytes) {
    0 !in name && |name| < NAME_SIZE
  }

  // strcpy leaves whatever was in the field behind the terminator.
  function EncodeEntry(e: Entry, garbage: bytes): (r: bytes)
    requires FitsField(e.username) && |garbage| == NAME_SIZE - 1 - |e.username| && INT_MIN <= e.elo <= INT_MAX
    ensures |r| == ENTRY_SIZE
  {
    e.username + [0] + garbage + EncodeLE(if e.elo < 0 then e.elo + 0x1_0000_0000 else e.elo, INT_SIZE)
  }

  function DecodeEntry(r: bytes): Entry
    requires |r| == ENTRY_SIZE
  {
    var bits: int := DecodeLE(r[NAME_SIZE..]);
    Entry(CString(r[..NAME_SIZE]), if bits > INT_MAX then bits - 0x1_0000_0000 else bits)
  }

  lemma {:induction false} CStringOfField(name: bytes, rest: bytes)
    requires 0 !in name
    ensures CString(name + [0] + rest) == name
  {
    if name == [] {
      assert (name + [0] + rest)[0] == 0;
    } else {
      assert (name + [0] + rest)[1..] == name[1..] + [0] + rest;
      CStringOfField(name[1..], rest);
    }
  }

  // Whatever garbage follows the name, the record reads back as the entry.
  lemma DecodeEncodeEntry(e: Entry, garbage: bytes)
    requires FitsField(e.username) && |garbage| == NAME_SIZE - 1 - |e.username| && INT_MIN <= e.elo <= INT_MAX
    ensures DecodeEntry(EncodeEntry(e, garbage)) == e
  {
    var bits := if e.elo < 0 then e.elo + 0x1_0000_0000 else e.elo;
    var r := EncodeEntry(e, garbage);
    CStringOfField(e.username, garbage);
    assert r[..NAME_SIZE] == e.username + [0] + garbage;
    assert r[NAME_SIZE..] == EncodeLE(bits, INT_SIZE);
    DecodeEncodeInt(bits);
  }

  // The layout of the C struct: the name from byte 0 on, ended by a NUL, and the rating in bytes 100 to 103 in two's
  // complement, the least significant byte first.
  lemma EntryLayout(e: Entry, garbage: bytes)
    requires FitsField(e.username) && |garbage| == NAME_SIZE - 1 - |e.username| && INT_MIN <= e.elo <= INT_MAX
    ensures var r := EncodeEntry(e, garbage);
            && |r| == 104 && |e.username| < 100 && r[..|e.username|] == e.username && r[|e.username|] == 0
            && Low(r[100]) + 0x100 * Low(r[101]) + 0x10000 * Low(r[102]) + 0x1000000 * Low(r[103])
               == if e.elo < 0 then e.elo + 0x1_0000_0000 else e.elo
  {
    var bits := if e.elo < 0 then e.elo + 0x1_0000_0000 else e.elo;
    var r := EncodeEntry(e, garbage);
    assert r[..|e.username|] == e.username;
    assert r[NAME_SIZE..] == EncodeLE(bits, INT_SIZE);
    hide EncodeLE, DecodeLE;
    DecodeEncodeInt(bits);
    DecodedInt(r[NAME_SIZE..]);
  }

  function Name(e: Entry): bytes { e.username }

  // compareLeaderboardEntries
  function Compare(a: Entry, b: Entry): int { b.elo - a.elo }

  // The comparison of the stored records.
  function CompareRecords(a: bytes, b: bytes): int {
    if |a| == ENTRY_SIZE && |b| == ENTRY_SIZE then Compare(DecodeEntry(a), DecodeEntry(b))
    else |b| - |a|
  }

  // matchLeaderboardEntry
  function MatchRecord(name: bytes): bytes -> bool {
    r => |r| == ENTRY_SIZE && DecodeEntry(r).username == name
  }

  function DecodeAll(rs: seq<bytes>): (es: seq<Entry>)
    requires AllOfSize(rs, ENTRY_SIZE)
    ensures |es| == |rs| && forall i :: 0 <= i < |rs| ==> es[i] == DecodeEntry(rs[i])
  {
    seq(|rs|, i requires 0 <= i < |rs| => DecodeEntry(rs[i]))
  }

  // Table operations on records are the same operations on entries.
  lemma FindEntries(rs: seq<bytes>, name: bytes)
    requires AllOfSize(rs, ENTRY_SIZE)
    ensures Find(rs, MatchRecord(name)) == Find(DecodeAll(rs), Matching(Name, name))
  {
    var es := DecodeAll(rs);
    var j, k := Find(rs, MatchRecord(name)), Find(es, Matching(Name, name));
    forall i | 0 <= i < |rs| ensures MatchRecord(name)(rs[i]) == Matching(Name, name)(es[i]) {
      assert Name(es[i]) == DecodeEntry(rs[i]).username;
    }
    assert j < |rs| ==> Matching(Name, name)(es[j]);
    assert k < |rs| ==> MatchRecord(name)(rs[k]);
  }

  lemma InsertEntries(rs: seq<bytes>, r: bytes)
    requires AllOfSize(rs, ENTRY_SIZE) && |r| == ENTRY_SIZE
    ensures var e := DecodeEntry(r); var after := Inserted(rs, r, MatchRecord(e.username));
            AllOfSize(after, ENTRY_SIZE) && DecodeAll(after) == Inserted(DecodeAll(rs), e, Matching(Name, e.username))
  {
    hide Find, DecodeEntry;
    FindEntries(rs, DecodeEntry(r).username);
  }

  lemma UpdateEntries(rs: seq<bytes>, r: bytes)
    requires AllOfSize(rs, ENTRY_SIZE) && |r| == ENTRY_SIZE
    ensures var e := DecodeEntry(r); var after := Updated(rs, r, MatchRecord(e.username));
            AllOfSize(after, ENTRY_SIZE) && DecodeAll(after) == Updated(DecodeAll(rs), e, Matching(Name, e.username))
  {
    hide Find, DecodeEntry;
    FindEntries(rs, DecodeEntry(r).username);
  }

  lemma CompareRecordsIsTotal()
    ensures TotalPreorder(CompareRecords)
  {
    hide DecodeEntry;
  }

  lemma DecodeWithout(rs: seq<bytes>, i: nat)
    requires AllOfSize(rs, ENTRY_SIZE) && i < |rs|
    ensures AllOfSize(Without(rs, i), ENTRY_SIZE) && DecodeAll(Without(rs, i)) == Without(DecodeAll(rs), i)
    ensures DecodeAll(rs)[i] == DecodeEntry(rs[i])
  {
    hide DecodeEntry;
  }

  lemma {:induction false} DecodedMultiset(a: seq<bytes>, b: seq<bytes>)
    requires AllOfSize(a, ENTRY_SIZE) && AllOfSize(b, ENTRY_SIZE) && multiset(a) == multiset(b)
    ensures multiset(DecodeAll(a)) == multiset(DecodeAll(b))
    decreases |a|
  {
    SameLength(a, b);
    if a == [] {
      assert DecodeAll(a) == DecodeAll(b);
    } else {
      hide DecodeEntry, DecodeAll, AllOfSize, Without;
      var i := PlaceOf(a, b);
      DecodeWithout(a, 0);
      DecodeWithout(b, i);
      DecodedMultiset(Without(a, 0), Without(b, i));
      TakeOut(DecodeAll(a), 0);
      TakeOut(DecodeAll(b), i);
    }
  }

  lemma SortEntries(before: seq<bytes>, after: seq<bytes>)
    requires AllOfSize(before, ENTRY_SIZE) && IsStableSort(before, after, CompareRecords)
    ensures AllOfSize(after, ENTRY_SIZE) && IsStableSort(DecodeAll(before), DecodeAll(after), Compare)
  {
    SortedSizes(before, after, ENTRY_SIZE);
    DecodedMultiset(after, before);
    var at, pos :| Witness(before, after, at, pos, CompareRecords);
    assert Witness(DecodeAll(before), DecodeAll(after), at, pos, Compare) by {
      hide DecodeEntry, Compare;
    }
  }

  // The order the comparison produces: ascending Elo, equal ratings in their earlier order. (The source's comment
  // announces a decreasing order.)
  predicate Ascending(es: seq<Entry>) {
    forall p, q :: 0 <= p < q < |es| ==> es[p].elo <= es[q].elo
  }

  // It is enough to compare neighbours.
  lemma AscendingByNeighbours(es: seq<Entry>)
    ensures Ascending(es) <==> forall p :: 0 <= p < |es| - 1 ==> es[p].elo <= es[p + 1].elo
  {
    if forall p :: 0 <= p < |es| - 1 ==> es[p].elo <= es[p + 1].elo {
      forall p, q | 0 <= p < q < |es| ensures es[p].elo <= es[q].elo {
        Climb(es, p, q);
      }
    }
  }

  lemma {:induction false} Climb(es: seq<Entry>, p: nat, q: nat)
    requires p <= q < |es| && forall i :: 0 <= i < |es| - 1 ==> es[i].elo <= es[i + 1].elo
    ensures es[p].elo <= es[q].elo
    decreases q - p
  {
    if p < q {
      Climb(es, p, q - 1);
      assert es[q - 1].elo <= es[q - 1 + 1].elo;
    }
  }

  lemma SortedIsAscending(before: seq<Entry>, after: seq<Entry>)
    requires IsStableSort(before, after, Compare)
    ensures Ascending(after)
  {
    var at, pos :| Witness(before, after, at, pos, Compare);
    forall p, q | 0 <= p < q < |after| ensures after[p].elo <= after[q].elo {
      assert Compare(after[p], after[q]) >= 0;
    }
  }

  class LeaderboardFile {
    const table: TableFile

    constructor ()
      ensures Valid() && fresh(table) && Entries() == []
    {
      table := new TableFile(ENTRY_SIZE);
    }

    ghost predicate Valid()
      reads table
    {
      table.size == ENTRY_SIZE && table.Valid()
    }

    ghost function Entries(): seq<Entry>
      requires Valid()
      reads table
    {
      DecodeAll(table.Records())
    }

    // getLeaderboardEntry
    method GetEntry(name: bytes) returns (entry: Option<Entry>)
      requires Valid()
      ensures entry == Lookup(Entries(), Matching(Name, name))
    {
      FindEntries(table.Records(), name);
      var record := table.GetRecord(MatchRecord(name));
      entry := match record case Some(r) => Some(DecodeEntry(r)) case None => None;
    }

    // addLeaderboardEntry: insert, then sort whether or not the insertion happened.
    method AddEntry(entry: Entry, garbage: bytes) returns (ok: bool, ghost unsorted: seq<Entry>)
      requires Valid() && FitsField(entry.username) && INT_MIN <= entry.elo <= INT_MAX
      requires |garbage| == NAME_SIZE - 1 - |entry.username| && |Entries()| < INT_MAX
      modifies table
      ensures Valid() && unsorted == Inserted(old(Entries()), entry, Matching(Name, entry.username))
      ensures IsStableSort(unsorted, Entries(), Compare) && Ascending(Entries())
      ensures ok <==> old(Lookup(Entries(), Matching(Name, entry.username))).None?
    {
      hide IsStableSort;
      var record := EncodeEntry(entry, garbage);
      DecodeEncodeEntry(entry, garbage);
      InsertEntries(table.Records(), record);
      FindEntries(table.Records(), entry.username);
      ok := table.InsertUniqueRecord(record, MatchRecord(entry.username));
      unsorted := Entries();
      Sort();
    }

    // updateLeaderboardEntry
    method UpdateEntry(entry: Entry, garbage: bytes) returns (ok: bool, ghost unsorted: seq<Entry>)
      requires Valid() && FitsField(entry.username) && INT_MIN <= entry.elo <= INT_MAX
      requires |garbage| == NAME_SIZE - 1 - |entry.username|
      modifies table
      ensures Valid() && unsorted == Updated(old(Entries()), entry, Matching(Name, entry.username))
      ensures IsStableSort(unsorted, Entries(), Compare) && Ascending(Entries())
      ensures ok <==> old(Lookup(Entries(), Matching(Name, entry.username))).Some?
    {
      hide IsStableSort;
      var record := EncodeEntry(entry, garbage);
      DecodeEncodeEntry(entry, garbage);
      UpdateEntries(table.Records(), record);
      FindEntries(table.Records(), entry.username);
      ok := table.UpdateRecord(record, MatchRecord(entry.username));
      unsorted := Entries();
      Sort();
    }

    // sortLeaderboard
    method Sort()
      requires Valid()
      modifies table
      ensures Valid() && IsStableSort(old(Entries()), Entries(), Compare) && Ascending(Entries())
    {
      hide IsStableSort;
      ghost var before := table.Records();
      CompareRecordsIsTotal();
      table.BubbleSortRecords(CompareRecords);
      SortEntries(before, table.Records());
      SortedIsAscending(DecodeAll(before), Entries());
    }
  }
}
