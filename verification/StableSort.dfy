// Bubble sort of record slots with a three-way comparison: a stable sort, relative to the comparison.
module StableSort {

  // compare(x, y) < 0 says that x and y are in the wrong order.
  ghost predicate TotalPreorder<R(!new)>(compare: (R, R) -> int) {
    && (forall x, y :: compare(x, y) < 0 <==> compare(y, x) > 0)
    && (forall x, y, z :: compare(x, y) >= 0 && compare(y, z) >= 0 ==> compare(x, z) >= 0)
  }

  lemma Swapped<R(!new)>(compare: (R, R) -> int, x: R, y: R)
    requires TotalPreorder(compare)
    ensures compare(x, y) < 0 <==> compare(y, x) > 0
    ensures compare(x, y) == 0 <==> compare(y, x) == 0
  {
    assert compare(y, x) < 0 <==> compare(x, y) > 0;
  }

  lemma Chained<R(!new)>(compare: (R, R) -> int, x: R, y: R, z: R)
    requires TotalPreorder(compare) && compare(x, y) >= 0 && compare(y, z) >= 0
    ensures compare(x, z) >= 0
  {
  }

  // at[k] is where the k-th record came from; pos is the inverse.
  ghost predicate Arrangement<R>(before: seq<R>, after: seq<R>, at: seq<nat>, pos: seq<nat>) {
    && |before| == |after| == |at| == |pos|
    && (forall k :: 0 <= k < |at| ==> at[k] < |before|)
    && (forall k :: 0 <= k < |pos| ==> pos[k] < |after|)
    && (forall k :: 0 <= k < |at| ==> pos[at[k]] == k)
    && (forall k :: 0 <= k < |pos| ==> at[pos[k]] == k)
    && (forall k :: 0 <= k < |at| ==> after[k] == before[at[k]])
  }

  // Records only overtake each other when the comparison says so.
  ghost predicate StrictInversions<R>(after: seq<R>, at: seq<nat>, compare: (R, R) -> int) {
    |after| == |at| && forall p, q :: 0 <= p < q < |at| && at[p] > at[q] ==> compare(after[p], after[q]) > 0
  }

  ghost predicate Ordered<R>(after: seq<R>, compare: (R, R) -> int) {
    forall p, q :: 0 <= p < q < |after| ==> compare(after[p], after[q]) >= 0
  }

  ghost predicate Witness<R>(before: seq<R>, after: seq<R>, at: seq<nat>, pos: seq<nat>, compare: (R, R) -> int) {
    Arrangement(before, after, at, pos) && StrictInversions(after, at, compare) && Ordered(after, compare)
  }

  // A permutation in which every earlier/later pair compares >= 0 and equal records keep their order.
  ghost predicate IsStableSort<R>(before: seq<R>, after: seq<R>, compare: (R, R) -> int) {
    && multiset(after) == multiset(before)
    && exists at, pos :: Witness(before, after, at, pos, compare)
  }

  function Exchange<T>(s: seq<T>, j: nat): (r: seq<T>)
    requires j + 1 < |s|
    ensures |r| == |s|
    ensures forall k :: 0 <= k < |s| ==> r[k] == s[Neighbour(j, k)]
  {
    s[j := s[j + 1]][j + 1 := s[j]]
  }

  // The place that the exchange at j brings to place k.
  function Neighbour(j: nat, k: nat): nat {
    if k == j then j + 1 else if k == j + 1 then j else k
  }

  // The inverse of an exchanged arrangement.
  function ExchangeInverse(at: seq<nat>, pos: seq<nat>, j: nat): (r: seq<nat>)
    requires j + 1 < |at| && at[j] < |pos| && at[j + 1] < |pos|
    ensures |r| == |pos|
  {
    pos[at[j] := j + 1][at[j + 1] := j]
  }

  lemma ExchangeArranges<R>(before: seq<R>, rs: seq<R>, at: seq<nat>, pos: seq<nat>, j: nat)
    requires Arrangement(before, rs, at, pos) && j + 1 < |rs|
    ensures Arrangement(before, Exchange(rs, j), Exchange(at, j), ExchangeInverse(at, pos, j))
  {
    var at', pos' := Exchange(at, j), ExchangeInverse(at, pos, j);
    assert pos[at[j]] == j && pos[at[j + 1]] == j + 1;
    hide Exchange;
    forall k | 0 <= k < |at| ensures pos'[at'[k]] == k {
      assert pos[at[Neighbour(j, k)]] == Neighbour(j, k);
    }
    forall v | 0 <= v < |pos| ensures pos'[v] < |rs| && at'[pos'[v]] == v {
      assert at[pos[v]] == v;
    }
  }

  // Exchanging two neighbours that are in the wrong order keeps every inversion strict.
  lemma ExchangeKeeps<R(!new)>(rs: seq<R>, at: seq<nat>, compare: (R, R) -> int, j: nat)
    requires TotalPreorder(compare) && StrictInversions(rs, at, compare)
    requires j + 1 < |rs| && compare(rs[j], rs[j + 1]) < 0
    ensures StrictInversions(Exchange(rs, j), Exchange(at, j), compare)
  {
    var rs', at' := Exchange(rs, j), Exchange(at, j);
    Swapped(compare, rs[j], rs[j + 1]);
    hide Exchange, TotalPreorder;
    forall p, q | 0 <= p < q < |at'| && at'[p] > at'[q] ensures compare(rs'[p], rs'[q]) > 0 {
      assert at'[p] == at[Neighbour(j, p)] && at'[q] == at[Neighbour(j, q)];
      assert rs'[p] == rs[Neighbour(j, p)] && rs'[q] == rs[Neighbour(j, q)];
    }
  }

  lemma ExchangeMultiset<R>(rs: seq<R>, j: nat)
    requires j + 1 < |rs|
    ensures multiset(Exchange(rs, j)) == multiset(rs)
  {
  }

  // The last record compares >= 0 against everything before it, up to position j.
  ghost predicate Last<R>(rs: seq<R>, j: nat, compare: (R, R) -> int) {
    j < |rs| && forall p :: 0 <= p < j ==> compare(rs[p], rs[j]) >= 0
  }

  // Positions from n on are final.
  ghost predicate Settled<R>(rs: seq<R>, n: nat, compare: (R, R) -> int) {
    forall p, q :: 0 <= p < q < |rs| && n <= q ==> compare(rs[p], rs[q]) >= 0
  }

  lemma ExchangeLast<R(!new)>(rs: seq<R>, n: nat, compare: (R, R) -> int, j: nat)
    requires TotalPreorder(compare) && j + 1 < n <= |rs| && compare(rs[j], rs[j + 1]) < 0
    requires Last(rs, j, compare) && Settled(rs, n, compare)
    ensures Last(Exchange(rs, j), j + 1, compare) && Settled(Exchange(rs, j), n, compare)
  {
    var rs' := Exchange(rs, j);
    Swapped(compare, rs[j], rs[j + 1]);
    hide Exchange, TotalPreorder;
    forall p, q | 0 <= p < q < |rs'| && n <= q ensures compare(rs'[p], rs'[q]) >= 0 {
      assert rs'[p] == rs[Neighbour(j, p)] && rs'[q] == rs[q];
    }
  }

  lemma KeepLast<R(!new)>(rs: seq<R>, compare: (R, R) -> int, j: nat)
    requires TotalPreorder(compare) && j + 1 < |rs| && compare(rs[j], rs[j + 1]) >= 0 && Last(rs, j, compare)
    ensures Last(rs, j + 1, compare)
  {
    forall p | 0 <= p < j + 1 ensures compare(rs[p], rs[j + 1]) >= 0 {
      if p < j {
        Chained(compare, rs[p], rs[j], rs[j + 1]);
      }
    }
  }

  lemma SettleOneMore<R>(before: seq<R>, rs: seq<R>, at: seq<nat>, pos: seq<nat>, n: nat, compare: (R, R) -> int)
    requires 0 < n <= |rs| && Last(rs, n - 1, compare) && Sorting(before, rs, at, pos, n, compare)
    ensures Sorting(before, rs, at, pos, n - 1, compare)
  {
    hide Arrangement, StrictInversions;
  }

  // Between two steps: an arrangement of the input whose positions from n on are final.
  ghost predicate Sorting<R>(before: seq<R>, rs: seq<R>, at: seq<nat>, pos: seq<nat>, n: nat, compare: (R, R) -> int) {
    && Arrangement(before, rs, at, pos) && StrictInversions(rs, at, compare)
    && multiset(rs) == multiset(before)
    && Settled(rs, n, compare)
  }

  lemma ExchangeStep<R(!new)>(before: seq<R>, rs: seq<R>, at: seq<nat>, pos: seq<nat>, n: nat,
                              compare: (R, R) -> int, j: nat)
    returns (at': seq<nat>, pos': seq<nat>)
    requires TotalPreorder(compare) && j + 1 < n <= |rs| && compare(rs[j], rs[j + 1]) < 0
    requires Sorting(before, rs, at, pos, n, compare) && Last(rs, j, compare)
    ensures Sorting(before, Exchange(rs, j), at', pos', n, compare) && Last(Exchange(rs, j), j + 1, compare)
  {
    hide TotalPreorder, Arrangement, StrictInversions, Settled, Last, Exchange, ExchangeInverse;
    ArrangementBounds(before, rs, at, pos);
    ExchangeArranges(before, rs, at, pos, j);
    ExchangeKeeps(rs, at, compare, j);
    ExchangeMultiset(rs, j);
    ExchangeLast(rs, n, compare, j);
    at', pos' := Exchange(at, j), ExchangeInverse(at, pos, j);
  }

  method BubbleSort<R(!new)>(a: array<R>, compare: (R, R) -> int)
    requires TotalPreorder(compare)
    modifies a
    ensures IsStableSort(old(a[..]), a[..], compare)
  {
    hide TotalPreorder, Sorting, Last, Ordered;
    ghost var before := a[..];
    ghost var at: seq<nat> := seq(a.Length, k => k);
    ghost var pos: seq<nat> := at;
    Start(before, at, compare);
    var i := 0;
    while i < a.Length - 1
      invariant 0 <= i <= a.Length && (a.Length > 0 ==> i < a.Length)
      invariant Sorting(before, a[..], at, pos, a.Length - i, compare)
    {
      var j := 0;
      LastAtStart(a[..], compare);
      while j < a.Length - i - 1
        invariant 0 <= j <= a.Length - i - 1
        invariant Sorting(before, a[..], at, pos, a.Length - i, compare) && Last(a[..], j, compare)
      {
        if compare(a[j], a[j + 1]) < 0 {
          ghost var rs := a[..];
          at, pos := ExchangeStep(before, rs, at, pos, a.Length - i, compare, j);
          a[j], a[j + 1] := a[j + 1], a[j];
          assert a[..] == Exchange(rs, j);
        } else {
          KeepLast(a[..], compare, j);
        }
        j := j + 1;
      }
      SettleOneMore(before, a[..], at, pos, a.Length - i, compare);
      i := i + 1;
    }
    AllSettled(before, a[..], at, pos, a.Length - i, compare);
  }

  lemma Start<R>(before: seq<R>, at: seq<nat>, compare: (R, R) -> int)
    requires at == seq(|before|, k => k)
    ensures Sorting(before, before, at, at, |before|, compare)
  {
  }

  lemma LastAtStart<R>(rs: seq<R>, compare: (R, R) -> int)
    requires rs != []
    ensures Last(rs, 0, compare)
  {
  }

  lemma ArrangementBounds<R>(before: seq<R>, rs: seq<R>, at: seq<nat>, pos: seq<nat>)
    requires Arrangement(before, rs, at, pos)
    ensures |before| == |rs| == |at| == |pos| && forall k :: 0 <= k < |at| ==> at[k] < |pos|
  {
  }

  lemma AllSettled<R>(before: seq<R>, rs: seq<R>, at: seq<nat>, pos: seq<nat>, n: nat, compare: (R, R) -> int)
    requires Sorting(before, rs, at, pos, n, compare) && n <= 1
    ensures IsStableSort(before, rs, compare)
  {
    hide Arrangement, StrictInversions;
    assert Witness(before, rs, at, pos, compare);
  }

  // ----- Permutations, one element at a time -----

  lemma SplitAt<T>(s: seq<T>, i: nat)
    requires i < |s|
    ensures s == s[..i] + ([s[i]] + s[i + 1..])
  {
  }

  lemma TakeOut<T>(s: seq<T>, i: nat)
    requires i < |s|
    ensures multiset(Without(s, i)) == multiset(s) - multiset{s[i]}
    ensures multiset(s) == multiset{s[i]} + multiset(Without(s, i))
  {
    SplitAt(s, i);
  }

  function Without<T>(s: seq<T>, i: nat): (r: seq<T>)
    requires i < |s|
    ensures |r| == |s| - 1
  {
    s[..i] + s[i + 1..]
  }

  lemma SameLength<T>(a: seq<T>, b: seq<T>)
    requires multiset(a) == multiset(b)
    ensures |a| == |b|
  {
    assert |multiset(a)| == |a| && |multiset(b)| == |b|;
  }

  // Where the first element of a permutation stands, and that the rest is a permutation too.
  lemma PlaceOf<T>(a: seq<T>, b: seq<T>) returns (i: nat)
    requires multiset(a) == multiset(b) && a != []
    ensures i < |b| && b[i] == a[0] && multiset(Without(a, 0)) == multiset(Without(b, i))
  {
    assert a[0] in multiset(b);
    i :| 0 <= i < |b| && b[i] == a[0];
    TakeOut(a, 0);
    TakeOut(b, i);
  }

  // ----- A stable sort is determined by its input -----

  // Where the record from position u may stand before the record from position v.
  ghost predicate Precedes<R>(before: seq<R>, u: nat, v: nat, compare: (R, R) -> int)
    requires u < |before| && v < |before|
  {
    compare(before[u], before[v]) > 0 || (compare(before[u], before[v]) == 0 && u < v)
  }

  lemma PrecedesOneWay<R(!new)>(before: seq<R>, u: nat, v: nat, compare: (R, R) -> int)
    requires TotalPreorder(compare) && u < |before| && v < |before|
    ensures !(Precedes(before, u, v, compare) && Precedes(before, v, u, compare))
  {
    Swapped(compare, before[u], before[v]);
  }

  lemma WitnessPrecedes<R>(before: seq<R>, after: seq<R>, at: seq<nat>, pos: seq<nat>, compare: (R, R) -> int, p: nat,
      q: nat)
    requires Witness(before, after, at, pos, compare) && p < q < |at|
    ensures at[p] < |before| && at[q] < |before| && Precedes(before, at[p], at[q], compare)
  {
    assert pos[at[p]] == p && pos[at[q]] == q;
    assert compare(after[p], after[q]) >= 0;
  }

  lemma {:induction false} SamePlaces<R(!new)>(before: seq<R>, a1: seq<R>, at1: seq<nat>, pos1: seq<nat>,
                                         a2: seq<R>, at2: seq<nat>, pos2: seq<nat>, compare: (R, R) -> int, n: nat)
    requires TotalPreorder(compare) && n <= |before|
    requires Witness(before, a1, at1, pos1, compare) && Witness(before, a2, at2, pos2, compare)
    ensures |at1| == |at2| == |before| && at1[..n] == at2[..n]
  {
    if n > 0 {
      SamePlaces(before, a1, at1, pos1, a2, at2, pos2, compare, n - 1);
      var u, v := at1[n - 1], at2[n - 1];
      if u != v {
        PrecedesOneWay(before, u, v, compare);
        LaterPlace(before, a1, at1, pos1, a2, at2, pos2, compare, n - 1);
        LaterPlace(before, a2, at2, pos2, a1, at1, pos1, compare, n - 1);
      }
      assert at1[..n] == at1[..n - 1] + [u] && at2[..n] == at2[..n - 1] + [v];
    }
  }

  // If two arrangements agree on the first k places, the record at place k of one stands at k or later in the other.
  lemma LaterPlace<R>(before: seq<R>, a1: seq<R>, at1: seq<nat>, pos1: seq<nat>,
                      a2: seq<R>, at2: seq<nat>, pos2: seq<nat>, compare: (R, R) -> int, k: nat)
    requires Witness(before, a1, at1, pos1, compare) && Witness(before, a2, at2, pos2, compare)
    requires k < |before| && at1[..k] == at2[..k] && at1[k] != at2[k]
    ensures at1[k] < |before| && at2[k] < |before| && Precedes(before, at1[k], at2[k], compare)
  {
    var q := pos1[at2[k]];
    assert at1[q] == at2[k];
    forall j | 0 <= j < k ensures at1[j] != at2[k] {
      assert at1[j] == at1[..k][j] == at2[..k][j] == at2[j];
      assert pos2[at2[j]] == j && pos2[at2[k]] == k;
    }
    WitnessPrecedes(before, a1, at1, pos1, compare, k, q);
  }

  lemma StableSortIsUnique<R(!new)>(before: seq<R>, a1: seq<R>, a2: seq<R>, compare: (R, R) -> int)
    requires TotalPreorder(compare) && IsStableSort(before, a1, compare) && IsStableSort(before, a2, compare)
    ensures a1 == a2
  {
    var at1, pos1 :| Witness(before, a1, at1, pos1, compare);
    var at2, pos2 :| Witness(before, a2, at2, pos2, compare);
    SamePlaces(before, a1, at1, pos1, a2, at2, pos2, compare, |before|);
    assert at1 == at1[..|before|] && at2 == at2[..|before|];
  }
}
