// A table file: a four-byte count and fixed-size slots, read and written through offsets.
module RecordFile {
  import opened Bytes
  import opened RecordTable
  import opened StableSort

  // Size of the count header.
  const INT_SIZE: nat := 4

  lemma DecodeEncodeInt(n: nat)
    requires n < 0x1_0000_0000
    ensures DecodeLE(EncodeLE(n, INT_SIZE)) == n
  {
    DecodeEncodeLE(n, INT_SIZE);
  }

  // ----- Slots -----

  // Bytes taken by n slots.
  function Span(size: nat, n: nat): nat {
    n * size
  }

  function Offset(size: nat, i: nat): nat {
    INT_SIZE + Span(size, i)
  }

  lemma OffsetsApart(size: nat, i: nat, j: nat)
    ensures Offset(size, i + 1) == Offset(size, i) + size
    ensures i < j ==> Offset(size, i) + size <= Offset(size, j)
  {
    assert Span(size, i + 1) == Span(size, i) + size;
    if i < j {
      Scale(i + 1, j, size);
    }
  }

  function CountOf(f: bytes): nat
    requires |f| >= INT_SIZE
  {
    DecodeLE(f[..INT_SIZE])
  }

  // The slots in use lie inside the file; a file may be longer, with stale bytes behind them.
  predicate WellFormed(f: bytes, size: nat) {
    size > 0 && |f| >= INT_SIZE && CountOf(f) <= INT_MAX && Offset(size, CountOf(f)) <= |f|
  }

  function Slot(f: bytes, size: nat, i: nat): (r: bytes)
    requires Offset(size, i) + size <= |f|
    ensures |r| == size
  {
    f[Offset(size, i)..Offset(size, i) + size]
  }

  function Slots(f: bytes, size: nat, n: nat): (r: seq<bytes>)
    requires Offset(size, n) <= |f|
    ensures |r| == n
    ensures forall i :: 0 <= i < n ==> Offset(size, i) + size <= |f| && r[i] == Slot(f, size, i)
    decreases n
  {
    if n == 0 then []
    else
      OffsetsApart(size, n - 1, n);
      assert forall i :: 0 <= i < n - 1 ==> Offset(size, i) + size <= |f| by {
        forall i | 0 <= i < n - 1 ensures Offset(size, i) + size <= |f| {
          OffsetsApart(size, i, n);
        }
      }
      Slots(f, size, n - 1) + [Slot(f, size, n - 1)]
  }

  // lseek to off, then write b; the file grows if the write passes its end.
  function WriteAt(f: bytes, off: nat, b: bytes): (r: bytes)
    requires off <= |f|
    ensures off + |b| <= |r| && |f| <= |r|
  {
    f[..off] + b + (if off + |b| <= |f| then f[off + |b|..] else [])
  }

  // A write leaves everything before it and behind it as it was.
  lemma WriteOutside(f: bytes, off: nat, b: bytes, lo: nat, hi: nat)
    requires off <= |f| && lo <= hi <= |f| && (hi <= off || off + |b| <= lo)
    ensures WriteAt(f, off, b)[lo..hi] == f[lo..hi]
  {
  }

  lemma WriteInside(f: bytes, off: nat, b: bytes)
    requires off <= |f|
    ensures WriteAt(f, off, b)[off..off + |b|] == b
  {
  }

  // Writing slot i leaves every other slot as it was.
  lemma WriteOtherSlot(f: bytes, size: nat, i: nat, b: bytes, j: nat)
    requires |b| == size && i != j && Offset(size, i) <= |f| && Offset(size, j) + size <= |f|
    ensures Offset(size, j) + size <= |WriteAt(f, Offset(size, i), b)|
    ensures Slot(WriteAt(f, Offset(size, i), b), size, j) == Slot(f, size, j)
  {
    OffsetsApart(size, i, j);
    OffsetsApart(size, j, i);
    WriteOutside(f, Offset(size, i), b, Offset(size, j), Offset(size, j) + size);
  }

  lemma SlotsReplaced(f: bytes, f': bytes, size: nat, i: nat, b: bytes, n: nat)
    requires i <= n && Offset(size, n) <= |f| && Offset(size, i) + size <= |f'| && Offset(size, n) <= |f'|
    requires Slot(f', size, i) == b
    requires forall j :: 0 <= j < n && j != i ==>
        Offset(size, j) + size <= |f| && Offset(size, j) + size <= |f'| && Slot(f', size, j) == Slot(f, size, j)
    ensures i < n ==> Slots(f', size, n) == Slots(f, size, n)[i := b]
    ensures i == n ==> Offset(size, n + 1) <= |f'| && Slots(f', size, n + 1) == Slots(f, size, n) + [b]
  {
    OffsetsApart(size, n, n);
    hide Slot, Offset;
    if i < n {
      assert Slots(f', size, n) == Slots(f, size, n)[i := b];
    } else {
      assert Slots(f', size, n) == Slots(f, size, n);
    }
  }

  lemma WriteSlot(f: bytes, size: nat, i: nat, b: bytes, n: nat)
    requires |b| == size && i <= n && Offset(size, n) <= |f| && |f| >= INT_SIZE
    ensures Offset(size, i) <= |f|
    ensures var f' := WriteAt(f, Offset(size, i), b);
            f'[..INT_SIZE] == f[..INT_SIZE] && Offset(size, if i < n then n else n + 1) <= |f'|
    ensures var f' := WriteAt(f, Offset(size, i), b);
            if i < n then Slots(f', size, n) == Slots(f, size, n)[i := b]
            else Slots(f', size, n + 1) == Slots(f, size, n) + [b]
  {
    OffsetsApart(size, i, n);
    OffsetsApart(size, i, i);
    var off := Offset(size, i);
    var f' := WriteAt(f, off, b);
    WriteOutside(f, off, b, 0, INT_SIZE);
    WriteInside(f, off, b);
    hide WriteAt, Slots;
    forall j | 0 <= j < n && j != i
      ensures Offset(size, j) + size <= |f| && Offset(size, j) + size <= |f'| && Slot(f', size, j) == Slot(f, size, j)
    {
      OffsetsApart(size, j, n);
      WriteOtherSlot(f, size, i, b, j);
    }
    hide Offset;
    SlotsReplaced(f, f', size, i, b, n);
  }

  lemma WriteHeader(f: bytes, size: nat, n: nat, count: nat)
    requires |f| >= INT_SIZE && Offset(size, n) <= |f| && count <= INT_MAX
    ensures var f' := WriteAt(f, 0, EncodeLE(count, INT_SIZE));
            |f'| == |f| && CountOf(f') == count && Slots(f', size, n) == Slots(f, size, n)
  {
    hide EncodeLE, DecodeLE;
    var header := EncodeLE(count, INT_SIZE);
    var f' := WriteAt(f, 0, header);
    WriteInside(f, 0, header);
    DecodeEncodeInt(count);
    assert f'[..INT_SIZE] == f'[0..INT_SIZE];
    assert |f'| == |f|;
    hide WriteAt;
    forall j | 0 <= j < n ensures Offset(size, j) + size <= |f| && Slot(f', size, j) == Slot(f, size, j) {
      SlotBehindHeader(f, size, n, header, j);
    }
    hide Offset, Slot, CountOf;
    assert Slots(f', size, n) == Slots(f, size, n);
  }

  lemma SlotBehindHeader(f: bytes, size: nat, n: nat, header: bytes, j: nat)
    requires |f| >= INT_SIZE && |header| == INT_SIZE && j < n && Offset(size, n) <= |f|
    ensures Offset(size, j) + size <= |f| <= |WriteAt(f, 0, header)|
    ensures Slot(WriteAt(f, 0, header), size, j) == Slot(f, size, j)
  {
    OffsetsApart(size, j, n);
    WriteOutside(f, 0, header, Offset(size, j), Offset(size, j) + size);
  }

  lemma FewerSlots(f: bytes, size: nat, n: nat)
    requires n > 0 && Offset(size, n) <= |f|
    ensures Offset(size, n - 1) <= |f| && Slots(f, size, n - 1) == Slots(f, size, n)[..n - 1]
  {
    OffsetsApart(size, n - 1, n);
  }

  // The slots one after the other.
  function Flatten(rs: seq<bytes>): bytes {
    if rs == [] then [] else Flatten(rs[..|rs| - 1]) + rs[|rs| - 1]
  }

  predicate AllOfSize(rs: seq<bytes>, size: nat) {
    forall i :: 0 <= i < |rs| ==> |rs[i]| == size
  }

  lemma {:induction false} FlattenedSlot(rs: seq<bytes>, size: nat, i: nat)
    requires AllOfSize(rs, size)
    ensures |Flatten(rs)| == Span(size, |rs|)
    ensures i < |rs| ==>
        Span(size, i) + size <= |Flatten(rs)| && Flatten(rs)[Span(size, i)..Span(size, i) + size] == rs[i]
    decreases |rs|
  {
    if rs != [] {
      var n := |rs| - 1;
      var front := Flatten(rs[..n]);
      FlattenedSlot(rs[..n], size, i);
      OffsetsApart(size, n, |rs|);
      assert Flatten(rs) == front + rs[n];
      hide Flatten, Span;
      if i < n {
        var from := Span(size, i);
        assert (front + rs[n])[from..from + size] == front[from..from + size];
      }
    }
  }

  lemma WriteAllSlots(f: bytes, size: nat, rs: seq<bytes>)
    requires |f| >= INT_SIZE && size > 0 && AllOfSize(rs, size)
    ensures var f' := WriteAt(f, INT_SIZE, Flatten(rs));
            f'[..INT_SIZE] == f[..INT_SIZE] && Offset(size, |rs|) <= |f'| && Slots(f', size, |rs|) == rs
  {
    var text := Flatten(rs);
    var f' := WriteAt(f, INT_SIZE, text);
    FlattenedSlot(rs, size, 0);
    WriteOutside(f, INT_SIZE, text, 0, INT_SIZE);
    WriteInside(f, INT_SIZE, text);
    hide WriteAt, Span, Flatten, Slots;
    forall i | 0 <= i < |rs| ensures Offset(size, i) + size <= |f'| && Slot(f', size, i) == rs[i] {
      FlattenedSlot(rs, size, i);
      SlotOfStretch(f', text, size, i);
    }
    hide Slot;
    assert Slots(f', size, |rs|) == rs;
  }

  // A slot inside a stretch of slots behind the header.
  lemma SlotOfStretch(f: bytes, text: bytes, size: nat, i: nat)
    requires INT_SIZE + |text| <= |f| && f[INT_SIZE..INT_SIZE + |text|] == text && Span(size, i) + size <= |text|
    ensures Slot(f, size, i) == text[Span(size, i)..Span(size, i) + size]
  {
    hide Span;
    SliceOfSlice(f, INT_SIZE, INT_SIZE + |text|, Span(size, i), Span(size, i) + size);
  }

  lemma SliceOfSlice(f: bytes, a: nat, b: nat, lo: nat, hi: nat)
    requires a <= b <= |f| && lo <= hi <= b - a
    ensures f[a..b][lo..hi] == f[a + lo..a + hi]
  {
    assert forall k :: 0 <= k < hi - lo ==> f[a..b][lo..hi][k] == f[a + lo..a + hi][k];
  }

  lemma SortedSizes(before: seq<bytes>, after: seq<bytes>, size: nat)
    requires multiset(after) == multiset(before) && AllOfSize(before, size)
    ensures |after| == |before| && AllOfSize(after, size)
  {
    assert |multiset(after)| == |after| && |multiset(before)| == |before|;
    forall i | 0 <= i < |after| ensures |after[i]| == size {
      assert after[i] in multiset(after);
      assert after[i] in before;
    }
  }

  lemma SlotInside(f: bytes, size: nat, i: nat)
    requires WellFormed(f, size) && i < CountOf(f)
    ensures Offset(size, i) + size <= |f|
  {
    OffsetsApart(size, i, CountOf(f));
  }

  // Where everything stands: the count in the first four bytes, the least significant one first, and record i of `size`
  // bytes at position 4 + i * size.
  lemma FileLayout(f: bytes, size: nat, i: nat)
    requires WellFormed(f, size) && i < CountOf(f)
    ensures |f| >= 4 && CountOf(f) == Low(f[0]) + 0x100 * Low(f[1]) + 0x10000 * Low(f[2]) + 0x1000000 * Low(f[3])
    ensures 4 + i * size + size <= |f| && Slots(f, size, CountOf(f))[i] == f[4 + i * size..4 + i * size + size]
  {
    SlotInside(f, size, i);
    DecodedInt(f[..INT_SIZE]);
    hide DecodeLE;
  }

  lemma DecodedInt(b: bytes)
    requires |b| == 4
    ensures DecodeLE(b) == Low(b[0]) + 0x100 * Low(b[1]) + 0x10000 * Low(b[2]) + 0x1000000 * Low(b[3])
  {
    assert b[1..][1..] == b[2..] && b[2..][1..] == b[3..] && b[3..][1..] == [];
    assert DecodeLE(b[3..]) == Low(b[3]) + 256 * DecodeLE([]);
    assert DecodeLE(b[2..]) == Low(b[2]) + 256 * DecodeLE(b[3..]);
    assert DecodeLE(b[1..]) == Low(b[1]) + 256 * DecodeLE(b[2..]);
  }

  class TableFile {
    var file: bytes
    const size: nat

    // A fresh table, as serverInit creates it.
    constructor (size: nat)
      requires size > 0
      ensures Valid() && this.size == size && Records() == []
    {
      DecodeEncodeInt(0);
      this.size := size;
      file := EncodeLE(0, INT_SIZE);
      assert EncodeLE(0, INT_SIZE)[..INT_SIZE] == EncodeLE(0, INT_SIZE);
    }

    ghost predicate Valid()
      reads this
    {
      WellFormed(file, size)
    }

    // The records a reader can see.
    ghost function Records(): (rs: seq<bytes>)
      requires Valid()
      reads this
      ensures forall i :: 0 <= i < |rs| ==> |rs[i]| == size
    {
      Slots(file, size, CountOf(file))
    }

    // The count in the header.
    function Count(): nat
      requires |file| >= INT_SIZE
      reads this
    {
      CountOf(file)
    }

    lemma RecordCount()
      requires Valid()
      ensures |file| >= INT_SIZE && |Records()| == Count()
    {
    }

    // getRecordUnlocked, for an index below the count.
    method ReadSlot(i: nat) returns (record: bytes)
      requires Valid() && i < CountOf(file)
      ensures |Records()| == CountOf(file) && record == Records()[i]
    {
      SlotInside(file, size, i);
      record := Slot(file, size, i);
    }

    // The scan every operation starts with.
    method Scan(m: bytes -> bool) returns (k: nat)
      requires Valid()
      ensures k == Find(Records(), m)
    {
      var count := CountOf(file);
      k := 0;
      while k < count
        invariant k <= count
        invariant forall i :: 0 <= i < k ==> !m(Records()[i])
      {
        var record := ReadSlot(k);
        if m(record) {
          break;
        }
        k := k + 1;
      }
    }

    method GetRecord(m: bytes -> bool) returns (record: Option<bytes>)
      requires Valid()
      ensures record == Lookup(Records(), m)
    {
      var k := Scan(m);
      if k == CountOf(file) {
        return None;
      }
      var found := ReadSlot(k);
      record := Some(found);
    }

    // The new record is stored behind the last one before the count admits it.
    method InsertUniqueRecord(record: bytes, m: bytes -> bool) returns (ok: bool)
      requires Valid() && |record| == size && |Records()| < INT_MAX
      modifies `file
      ensures Valid() && Records() == Inserted(old(Records()), record, m)
      ensures ok <==> old(Lookup(Records(), m)).None?
    {
      var k := Scan(m);
      var count := CountOf(file);
      if k < count {
        return false;
      }
      WriteSlot(file, size, count, record, count);
      file := WriteAt(file, Offset(size, count), record);
      WriteHeader(file, size, count + 1, count + 1);
      file := WriteAt(file, 0, EncodeLE(count + 1, INT_SIZE));
      ok := true;
    }

    method UpdateRecord(record: bytes, m: bytes -> bool) returns (ok: bool)
      requires Valid() && |record| == size
      modifies `file
      ensures Valid() && Records() == Updated(old(Records()), record, m)
      ensures ok <==> old(Lookup(Records(), m)).Some?
    {
      var k := Scan(m);
      var count := CountOf(file);
      if k == count {
        return false;
      }
      WriteSlot(file, size, k, record, count);
      file := WriteAt(file, Offset(size, k), record);
      ok := true;
    }

    // The last record is copied over the deleted one, then the count shrinks; the last slot becomes stale.
    method DeleteRecord(m: bytes -> bool) returns (ok: bool)
      requires Valid()
      modifies `file
      ensures Valid() && Records() == Deleted(old(Records()), m)
      ensures ok <==> old(Lookup(Records(), m)).Some?
    {
      hide Find, WellFormed, CountOf, Slots;
      var k := Scan(m);
      RecordCount();
      if k == Count() {
        return false;
      }
      RemoveSlot(k);
      ok := true;
    }

    // The last record replaces record k, then the count no longer admits the last one.
    method RemoveSlot(k: nat)
      requires Valid() && k < |Records()|
      modifies `file
      ensures Valid() && Records() == old(Records()[k := Records()[|Records()| - 1]][..|Records()| - 1])
    {
      hide WriteAt, EncodeLE, DecodeLE, Slot, Offset;
      var count := CountOf(file);
      var last := ReadSlot(count - 1);
      WriteSlot(file, size, k, last, count);
      file := WriteAt(file, Offset(size, k), last);
      FewerSlots(file, size, count);
      WriteHeader(file, size, count - 1, count - 1);
      file := WriteAt(file, 0, EncodeLE(count - 1, INT_SIZE));
    }

    // At most perPage matches from the page's first raw position on; a null filter matches everything.
    method GetRecordPage(page: nat, perPage: nat, m: bytes -> bool) returns (records: seq<bytes>)
      requires Valid() && page >= 1
      ensures records == Page(Records(), page, perPage, m)
    {
      var count := CountOf(file);
      RecordCount();
      hide Collect, PageStart, WellFormed, Slots, CountOf, TableFile.Records, TableFile.Valid;
      var at: nat := PageStart(page, perPage);
      records := [];
      ghost var rs := Records();
      ghost var all := Collect(rs, at, perPage, m);
      assert [] + all == all;
      while |records| < perPage && at < count
        invariant |records| <= perPage
        invariant all == records + Collect(rs, at, perPage - |records|, m)
        decreases count - at
      {
        var record := ReadSlot(at);
        CollectMore(rs, records, at, perPage - |records|, m);
        if m(record) {
          records := records + [record];
        }
        at := at + 1;
      }
      RecordCount();
      CollectMore(rs, records, at, perPage - |records|, m);
    }

    // All slots are read into memory, sorted there and written back behind the header.
    method BubbleSortRecords(compare: (bytes, bytes) -> int)
      requires Valid() && TotalPreorder(compare)
      modifies `file
      ensures Valid() && IsStableSort(old(Records()), Records(), compare)
    {
      var count := CountOf(file);
      var before := Slots(file, size, count);
      var records := new bytes[count](i requires 0 <= i < count => before[i]);
      assert records[..] == before;
      BubbleSort(records, compare);
      SortedSizes(before, records[..], size);
      WriteAllSlots(file, size, records[..]);
      file := WriteAt(file, INT_SIZE, Flatten(records[..]));
    }
  }
}
