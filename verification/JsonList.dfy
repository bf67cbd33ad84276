// The child list of an array or object: `next` ends in null, `prev` mirrors it, and the head's `prev` is the tail.
module JsonList {

  class Item {
    var next: Item?
    var prev: Item?
    var child: Item?
  }

  // xs are the children of parent, in order.
  ghost predicate Children(parent: Item, xs: seq<Item>)
    reads parent, xs
  {
    && parent !in xs
    && Distinct(xs)
    && parent.child == (if xs == [] then null else xs[0])
    && NextLinks(xs) && PrevLinks(xs)
  }

  // Every item points to what follows it.
  ghost predicate NextLinks(xs: seq<Item>)
    reads xs
  {
    forall i {:trigger xs[i].next} :: 0 <= i < |xs| ==> xs[i].next == After(xs, i)
  }

  // Every item points back to what precedes it.
  ghost predicate PrevLinks(xs: seq<Item>)
    reads xs
  {
    forall i {:trigger xs[i].prev} :: 0 <= i < |xs| ==> xs[i].prev == Before(xs, i)
  }

  // What follows and what precedes position i; the first item is preceded by the last one.
  function After(xs: seq<Item>, i: nat): Item?
    requires i < |xs|
  {
    if i + 1 < |xs| then xs[i + 1] else null
  }

  function Before(xs: seq<Item>, i: nat): Item
    requires i < |xs|
  {
    xs[if i > 0 then i - 1 else |xs| - 1]
  }

  // An item that is in no list.
  predicate Detached(item: Item)
    reads item
  {
    item.next == null && item.prev == null
  }

  // The pointers determine the sequence.
  lemma ChildrenAreUnique(parent: Item, xs: seq<Item>, ys: seq<Item>)
    requires Children(parent, xs) && Children(parent, ys)
    ensures xs == ys
  {
    if |xs| <= |ys| {
      SamePrefix(parent, xs, ys, |xs|);
    } else {
      SamePrefix(parent, ys, xs, |ys|);
    }
  }

  lemma {:induction false} SamePrefix(parent: Item, xs: seq<Item>, ys: seq<Item>, n: nat)
    requires Children(parent, xs) && Children(parent, ys) && n <= |xs| <= |ys|
    ensures xs[..n] == ys[..n] && (n == |xs| ==> |ys| == n)
  {
    if n > 0 {
      SamePrefix(parent, xs, ys, n - 1);
      if n > 1 {
        assert xs[n - 2] == xs[..n - 1][n - 2] == ys[n - 2];
        assert xs[n - 2].next == xs[n - 1] && ys[n - 2].next == ys[n - 1];
      }
      assert xs[n - 1] == ys[n - 1];
      assert n == |xs| ==> ys[n - 1].next == xs[n - 1].next == null;
      assert xs[..n] == xs[..n - 1] + [xs[n - 1]] && ys[..n] == ys[..n - 1] + [ys[n - 1]];
    }
  }

  // get_array_item
  method GetItem(parent: Item?, index: nat, ghost xs: seq<Item>) returns (item: Item?)
    requires parent != null ==> Children(parent, xs)
    ensures item == if parent != null && index < |xs| then xs[index] else null
  {
    if parent == null {
      return null;
    }
    item := parent.child;
    var left := index;
    ghost var i := 0;
    while item != null && left > 0
      invariant 0 <= i <= |xs| && i + left == index
      invariant item == if i < |xs| then xs[i] else null
    {
      left := left - 1;
      item := item.next;
      i := i + 1;
    }
  }

  // What being well linked means: a chain that ends in null, mirrored by the back pointers, the first of which leads to
  // the tail.
  lemma WellLinked(parent: Item, xs: seq<Item>)
    requires Children(parent, xs)
    ensures xs == [] <==> parent.child == null
    ensures xs != [] ==> parent.child == xs[0] && xs[0].prev == xs[|xs| - 1] && xs[|xs| - 1].next == null
    ensures forall i :: 0 <= i < |xs| - 1 ==> xs[i].next == xs[i + 1] && xs[i + 1].prev == xs[i]
  {
  }

  // The pointers around one item.
  lemma Neighbours(parent: Item, xs: seq<Item>, k: nat)
    requires Children(parent, xs) && k < |xs|
    ensures parent.child == xs[0] && xs[0].prev == xs[|xs| - 1]
    ensures xs[k] == xs[0] <==> k == 0
    ensures xs[k].next == After(xs, k) && xs[k].prev == Before(xs, k)
    ensures forall i :: 0 <= i < |xs| ==> xs[i] in xs && xs[i] in Nodes(xs)
  {
    assert xs[0].prev == xs[|xs| - 1];
  }

  predicate Distinct(xs: seq<Item>) {
    forall i, j :: 0 <= i < j < |xs| ==> xs[i] != xs[j]
  }

  lemma DistinctWithout(xs: seq<Item>, k: nat)
    requires Distinct(xs) && k < |xs|
    ensures Distinct(Without(xs, k))
  {
  }

  lemma DistinctWith(xs: seq<Item>, k: nat, x: Item)
    requires Distinct(xs) && k <= |xs| && x !in xs
    ensures Distinct(With(xs, k, x))
  {
  }

  // The items of a list, for frames.
  ghost function Nodes(xs: seq<Item>): set<Item> {
    set x | x in xs
  }

  // add_item_to_array
  method Append(parent: Item?, item: Item?, ghost xs: seq<Item>) returns (ok: bool)
    requires parent != null && item != null && parent != item ==>
        Children(parent, xs) && item !in xs && item.next == null
    modifies if parent != null && item != null && parent != item then {parent, item} + Nodes(xs) else {}
    ensures ok <==> parent != null && item != null && parent != item
    ensures ok ==> Children(parent, xs + [item])
  {
    if item == null || parent == null || parent == item {
      return false;
    }
    if xs != [] {
      Neighbours(parent, xs, |xs| - 1);
    }
    var child := parent.child;
    if child == null {
      assert xs + [item] == [item];
      parent.child := item;
      item.prev := item;
      item.next := null;
    } else if child.prev != null {
      child.prev.next := item;
      item.prev := child.prev;
      parent.child.prev := item;
      ghost var ys := xs + [item];
      forall i | 0 <= i < |ys|
        ensures ys[i].next == if i + 1 < |ys| then ys[i + 1] else null
        ensures ys[i].prev == ys[if i > 0 then i - 1 else |ys| - 1]
      {
        if i < |xs| {
          assert ys[i] == xs[i] && (i + 1 < |xs| ==> xs[i] != xs[|xs| - 1]) && (i > 0 ==> xs[i] != xs[0]);
        }
      }
    }
    ok := true;
  }

  // cJSON_DetachItemViaPointer; k is the position of the item, or |xs| if it is in no list.
  method Detach(parent: Item?, item: Item?, ghost xs: seq<Item>, ghost k: nat) returns (detached: Item?)
    requires parent != null && item != null ==>
               Children(parent, xs) && k <= |xs|
                   && (if k < |xs| then item == xs[k] else item !in xs && item.prev == null)
    modifies if parent != null && item != null && k < |xs| then {parent, item} + Nodes(xs) else {}
    ensures detached == if parent != null && item != null && k < |xs| then item else null
    ensures detached != null ==> Children(parent, Without(xs, k)) && Detached(item)
  {
    if parent != null && item != null {
      FirstChild(parent, item, xs, k);
    }
    if parent == null || item == null || (item != parent.child && item.prev == null) {
      return null;
    }
    Unlink(parent, item, xs, k);
    Removed(parent, xs, k);
    detached := item;
  }

  lemma FirstChild(parent: Item, item: Item, xs: seq<Item>, k: nat)
    requires Children(parent, xs) && k <= |xs| && (if k < |xs| then item == xs[k] else item !in xs)
    ensures parent.child == item <==> k == 0 && k < |xs|
    ensures k < |xs| ==> item.prev != null
  {
    if k < |xs| {
      Neighbours(parent, xs, k);
    }
  }

  method Unlink(parent: Item, item: Item, ghost xs: seq<Item>, ghost k: nat)
    requires Children(parent, xs) && k < |xs| && item == xs[k]
    modifies parent, item, Nodes(xs)
    ensures Detached(item)
    ensures parent.child == if k > 0 then xs[0] else After(xs, 0)
    ensures forall i {:trigger xs[i].next} :: 0 <= i < |xs| && i != k ==>
              xs[i].next == if i + 1 == k then After(xs, k) else After(xs, i)
    ensures forall i {:trigger xs[i].prev} :: 0 <= i < |xs| && i != k ==>
              xs[i].prev == if i == k + 1 || (i == 0 && k + 1 == |xs|) then Before(xs, k) else Before(xs, i)
  {
    Neighbours(parent, xs, k);
    if item != parent.child {
      item.prev.next := item.next;
    }
    if item.next != null {
      item.next.prev := item.prev;
    }
    if item == parent.child {
      parent.child := item.next;
    } else if item.next == null {
      parent.child.prev := item.prev;
    }
    item.prev := null;
    item.next := null;
  }

  function Without(xs: seq<Item>, k: nat): (ys: seq<Item>)
    requires k < |xs|
    ensures |ys| == |xs| - 1 && forall i :: 0 <= i < |ys| ==> ys[i] == xs[if i < k then i else i + 1]
  {
    xs[..k] + xs[k + 1..]
  }

  lemma RemovedNext(xs: seq<Item>, k: nat)
    requires k < |xs|
    requires forall i {:trigger xs[i].next} :: 0 <= i < |xs| && i != k ==>
               xs[i].next == if i + 1 == k then After(xs, k) else After(xs, i)
    ensures NextLinks(Without(xs, k))
  {
    var ys := Without(xs, k);
    hide Without;
    forall i | 0 <= i < |ys| ensures ys[i].next == After(ys, i) {
      assert ys[i] == xs[if i < k then i else i + 1];
    }
  }

  lemma RemovedPrev(xs: seq<Item>, k: nat)
    requires k < |xs|
    requires forall i {:trigger xs[i].prev} :: 0 <= i < |xs| && i != k ==>
               xs[i].prev == if i == k + 1 || (i == 0 && k + 1 == |xs|) then Before(xs, k) else Before(xs, i)
    ensures PrevLinks(Without(xs, k))
  {
    var ys := Without(xs, k);
    hide Without;
    forall i | 0 <= i < |ys| ensures ys[i].prev == Before(ys, i) {
      assert ys[i] == xs[if i < k then i else i + 1];
    }
  }

  // The pointers that detaching sets make the shorter sequence the children.
  lemma Removed(parent: Item, xs: seq<Item>, k: nat)
    requires parent !in xs && Distinct(xs) && k < |xs|
    requires parent.child == if k > 0 then xs[0] else After(xs, 0)
    requires forall i {:trigger xs[i].next} :: 0 <= i < |xs| && i != k ==>
               xs[i].next == if i + 1 == k then After(xs, k) else After(xs, i)
    requires forall i {:trigger xs[i].prev} :: 0 <= i < |xs| && i != k ==>
               xs[i].prev == if i == k + 1 || (i == 0 && k + 1 == |xs|) then Before(xs, k) else Before(xs, i)
    ensures Children(parent, Without(xs, k))
  {
    RemovedNext(xs, k);
    RemovedPrev(xs, k);
    DistinctWithout(xs, k);
    hide Distinct, NextLinks, PrevLinks, Without;
  }

  // cJSON_InsertItemInArray: a position past the end appends; nothing is inserted into null, or null, or a list into
  // itself.
  method Insert(parent: Item?, which: int, newItem: Item?, ghost xs: seq<Item>) returns (ok: bool)
    requires parent != null ==> Children(parent, xs)
    requires parent != null && newItem != null ==>
               newItem !in xs && newItem.next == null && (newItem == parent ==> |xs| <= which)
    modifies if which >= 0 && parent != null && newItem != null && newItem != parent
             then {parent, newItem} + Nodes(xs) else {}
    ensures ok <==> which >= 0 && parent != null && newItem != null && newItem != parent
    ensures ok ==> Children(parent, if which < |xs| then With(xs, which, newItem) else xs + [newItem])
  {
    if which < 0 || newItem == null {
      return false;
    }
    var after := GetItem(parent, which, xs);
    if after == null {
      ok := Append(parent, newItem, xs);
      return;
    }
    Neighbours(parent, xs, which);
    if after != parent.child && after.prev == null {
      return false;
    }
    InsertBefore(parent, after, newItem, xs, which);
    ok := true;
  }

  function With(xs: seq<Item>, k: nat, x: Item): (ys: seq<Item>)
    requires k <= |xs|
    ensures |ys| == |xs| + 1
    ensures forall i :: 0 <= i < |ys| ==> ys[i] == if i < k then xs[i] else if i == k then x else xs[i - 1]
  {
    xs[..k] + [x] + xs[k..]
  }

  lemma InsertedNext(newItem: Item, xs: seq<Item>, k: nat)
    requires k < |xs| && newItem.next == xs[k]
    requires forall i {:trigger xs[i].next} :: 0 <= i < |xs| ==>
        xs[i].next == if i + 1 == k then newItem else After(xs, i)
    ensures NextLinks(With(xs, k, newItem))
  {
    var ys := With(xs, k, newItem);
    hide With;
    forall i | 0 <= i < |ys| ensures ys[i].next == After(ys, i) {
      assert ys[i] == if i < k then xs[i] else if i == k then newItem else xs[i - 1];
    }
  }

  lemma InsertedPrev(newItem: Item, xs: seq<Item>, k: nat)
    requires k < |xs| && newItem.prev == Before(xs, k)
    requires forall i {:trigger xs[i].prev} :: 0 <= i < |xs| ==> xs[i].prev == if i == k then newItem else Before(xs, i)
    ensures PrevLinks(With(xs, k, newItem))
  {
    var ys := With(xs, k, newItem);
    hide With;
    forall i | 0 <= i < |ys| ensures ys[i].prev == Before(ys, i) {
      assert ys[i] == if i < k then xs[i] else if i == k then newItem else xs[i - 1];
    }
  }

  // The pointers that insertion sets make the longer sequence the children.
  lemma Inserted(parent: Item, newItem: Item, xs: seq<Item>, k: nat)
    requires parent !in xs && Distinct(xs) && k < |xs| && newItem != parent && newItem !in xs
    requires forall i {:trigger xs[i].next} :: 0 <= i < |xs| ==>
        xs[i].next == if i + 1 == k then newItem else After(xs, i)
    requires forall i {:trigger xs[i].prev} :: 0 <= i < |xs| ==> xs[i].prev == if i == k then newItem else Before(xs, i)
    requires newItem.next == xs[k] && newItem.prev == Before(xs, k)
    requires parent.child == if k == 0 then newItem else xs[0]
    ensures Children(parent, With(xs, k, newItem))
  {
    InsertedNext(newItem, xs, k);
    InsertedPrev(newItem, xs, k);
    DistinctWith(xs, k, newItem);
    hide Distinct, NextLinks, PrevLinks, With;
  }

  method InsertBefore(parent: Item, after: Item, newItem: Item, ghost xs: seq<Item>, ghost k: nat)
    requires Children(parent, xs) && k < |xs| && after == xs[k] && newItem != parent && newItem !in xs
    modifies parent, newItem, Nodes(xs)
    ensures Children(parent, With(xs, k, newItem))
  {
    LinkBefore(parent, after, newItem, xs, k);
    Inserted(parent, newItem, xs, k);
  }

  method LinkBefore(parent: Item, after: Item, newItem: Item, ghost xs: seq<Item>, ghost k: nat)
    requires Children(parent, xs) && k < |xs| && after == xs[k] && newItem != parent && newItem !in xs
    modifies parent, newItem, Nodes(xs)
    ensures newItem.next == xs[k] && newItem.prev == Before(xs, k)
    ensures parent.child == if k == 0 then newItem else xs[0]
    ensures forall i {:trigger xs[i].next} :: 0 <= i < |xs| ==>
        xs[i].next == if i + 1 == k then newItem else After(xs, i)
    ensures forall i {:trigger xs[i].prev} :: 0 <= i < |xs| ==> xs[i].prev == if i == k then newItem else Before(xs, i)
  {
    Neighbours(parent, xs, k);
    newItem.next := after;
    newItem.prev := after.prev;
    after.prev := newItem;
    if after == parent.child {
      parent.child := newItem;
    } else {
      newItem.prev.next := newItem;
    }
  }

  // cJSON_ReplaceItemViaPointer; freeing the replaced item is not modelled.
  method Replace(parent: Item?, item: Item?, replacement: Item?, ghost xs: seq<Item>, ghost k: nat) returns (ok: bool)
    requires parent != null && item != null ==> Children(parent, xs) && k < |xs| && item == xs[k]
    requires parent != null && item != null && replacement != null && replacement != item ==>
               replacement !in xs && replacement != parent
    modifies if parent != null && item != null && replacement != null && replacement != item
             then {parent, replacement} + Nodes(xs) else {}
    ensures ok <==> parent != null && item != null && replacement != null
    ensures ok ==> Children(parent, xs[k := replacement]) && (replacement != item ==> Detached(item))
  {
    if parent == null || parent.child == null || replacement == null || item == null {
      return false;
    }
    if replacement == item {
      assert xs[k := item] == xs;
      return true;
    }
    Exchange(parent, item, replacement, xs, k);
    Replaced(parent, replacement, xs, k);
    ok := true;
  }

  // The pointer surgery on a list with these children.
  method Exchange(parent: Item, item: Item, replacement: Item, ghost xs: seq<Item>, ghost k: nat)
    requires Children(parent, xs) && k < |xs| && item == xs[k] && replacement !in xs && replacement != parent
    modifies parent, replacement, Nodes(xs)
    ensures Detached(item)
    ensures parent.child == if k == 0 then replacement else xs[0]
    ensures replacement.next == After(xs, k) && replacement.prev == if |xs| == 1 then replacement else Before(xs, k)
    ensures forall i {:trigger xs[i].next} :: 0 <= i < |xs| && i != k ==>
              xs[i].next == if i + 1 == k then replacement else After(xs, i)
    ensures forall i {:trigger xs[i].prev} :: 0 <= i < |xs| && i != k ==>
              xs[i].prev == if i == k + 1 || (i == 0 && k + 1 == |xs|) then replacement else Before(xs, i)
  {
    Neighbours(parent, xs, k);
    replacement.next := item.next;
    replacement.prev := item.prev;
    if replacement.next != null {
      replacement.next.prev := replacement;
    }
    if parent.child == item {
      if parent.child.prev == parent.child {
        replacement.prev := replacement;
      }
      parent.child := replacement;
    } else {
      if replacement.prev != null {
        replacement.prev.next := replacement;
      }
      if replacement.next == null {
        parent.child.prev := replacement;
      }
    }
    item.next := null;
    item.prev := null;
  }

  lemma ReplacedNext(replacement: Item, xs: seq<Item>, k: nat)
    requires k < |xs| && replacement.next == After(xs, k)
    requires forall i {:trigger xs[i].next} :: 0 <= i < |xs| && i != k ==>
               xs[i].next == if i + 1 == k then replacement else After(xs, i)
    ensures NextLinks(xs[k := replacement])
  {
    var ys := xs[k := replacement];
    forall i | 0 <= i < |ys| ensures ys[i].next == After(ys, i) {
      assert i != k ==> ys[i] == xs[i];
    }
  }

  lemma ReplacedPrev(replacement: Item, xs: seq<Item>, k: nat)
    requires k < |xs| && replacement.prev == if |xs| == 1 then replacement else Before(xs, k)
    requires forall i {:trigger xs[i].prev} :: 0 <= i < |xs| && i != k ==>
               xs[i].prev == if i == k + 1 || (i == 0 && k + 1 == |xs|) then replacement else Before(xs, i)
    ensures PrevLinks(xs[k := replacement])
  {
    var ys := xs[k := replacement];
    forall i | 0 <= i < |ys| ensures ys[i].prev == Before(ys, i) {
      assert i != k ==> ys[i] == xs[i];
    }
  }

  lemma DistinctAfterReplacing(parent: Item, xs: seq<Item>, k: nat, x: Item)
    requires Distinct(xs) && k < |xs| && x !in xs && parent !in xs && parent != x
    ensures Distinct(xs[k := x]) && parent !in xs[k := x]
  {
  }

  // The pointers that replacing sets make the changed sequence the children.
  lemma Replaced(parent: Item, replacement: Item, xs: seq<Item>, k: nat)
    requires parent !in xs && Distinct(xs) && k < |xs| && replacement !in xs && replacement != parent
    requires parent.child == if k == 0 then replacement else xs[0]
    requires replacement.next == After(xs, k) && replacement.prev == if |xs| == 1 then replacement else Before(xs, k)
    requires forall i {:trigger xs[i].next} :: 0 <= i < |xs| && i != k ==>
               xs[i].next == if i + 1 == k then replacement else After(xs, i)
    requires forall i {:trigger xs[i].prev} :: 0 <= i < |xs| && i != k ==>
               xs[i].prev == if i == k + 1 || (i == 0 && k + 1 == |xs|) then replacement else Before(xs, i)
    ensures Children(parent, xs[k := replacement])
  {
    ReplacedNext(replacement, xs, k);
    ReplacedPrev(replacement, xs, k);
    DistinctAfterReplacing(parent, xs, k, replacement);
    hide Distinct, NextLinks, PrevLinks;
  }

  // The first n items are chained; nobody has told the head the tail yet.
  ghost predicate Chained(items: seq<Item>, n: nat)
    reads items
  {
    && (forall j {:trigger items[j].next} :: 0 <= j < |items| ==>
        items[j].next == if j + 1 < n then After(items, j) else null)
    && (forall j {:trigger items[j].prev} :: 0 <= j < |items| ==>
        items[j].prev == if 0 < j < n then items[j - 1] else null)
  }

  // How parse_array and parse_object chain the items they create: each new item is linked behind the current one, and
  // at the end the head is told the tail.
  method LinkParsed(parent: Item, items: seq<Item>)
    requires parent !in items && Distinct(items) && forall i :: 0 <= i < |items| ==> Detached(items[i])
    modifies parent, Nodes(items)
    ensures Children(parent, items)
  {
    var head: Item?, current: Item? := null, null;
    assert forall i :: 0 <= i < |items| ==> items[i] in Nodes(items);
    assert Chained(items, 0);
    hide Distinct, Chained;
    for i := 0 to |items|
      invariant if i == 0 then head == null else head == items[0] && current == items[i - 1]
      invariant Chained(items, i)
    {
      var newItem := items[i];
      if head == null {
        head := newItem;
        FirstIsChained(items);
      } else {
        LinkBehind(current, newItem, items, i);
      }
      current := newItem;
    }
    if head != null {
      TellHead(head, current, items);
    }
    parent.child := head;
  }

  lemma FirstIsChained(items: seq<Item>)
    requires Chained(items, 0)
    ensures Chained(items, 1)
  {
  }

  method LinkBehind(current: Item, newItem: Item, ghost items: seq<Item>, ghost i: nat)
    requires 0 < i < |items| && current == items[i - 1] && newItem == items[i] && Distinct(items) && Chained(items, i)
    modifies current, newItem
    ensures Chained(items, i + 1)
  {
    assert forall j :: 0 <= j < |items| ==> (items[j] == current <==> j == i - 1) && (items[j] == newItem <==> j == i);
    hide Distinct;
    current.next := newItem;
    newItem.prev := current;
  }

  method TellHead(head: Item, tail: Item, ghost items: seq<Item>)
    requires items != [] && head == items[0] && tail == items[|items| - 1] && Distinct(items) && Chained(items, |items|)
    modifies head
    ensures NextLinks(items) && PrevLinks(items)
  {
    assert forall j :: 0 <= j < |items| ==> (items[j] == head <==> j == 0);
    hide Distinct;
    head.prev := tail;
  }

  // Detaching an item and inserting it at its old position restores the list.
  method DetachThenInsert(parent: Item, item: Item, ghost xs: seq<Item>, k: nat)
    requires Children(parent, xs) && k < |xs| && item == xs[k]
    modifies parent, Nodes(xs)
    ensures Children(parent, xs)
  {
    hide Children, Distinct, Without, With, Nodes;
    NotBesideItself(parent, xs, k);
    var detached := Detach(parent, item, xs, k);
    var ok := Insert(parent, k, detached, Without(xs, k));
    BackInPlace(xs, k);
  }

  lemma BackInPlace(xs: seq<Item>, k: nat)
    requires k < |xs|
    ensures var ys := Without(xs, k); if k < |ys| then With(ys, k, xs[k]) == xs else ys + [xs[k]] == xs
  {
  }

  lemma NotBesideItself(parent: Item, xs: seq<Item>, k: nat)
    requires Children(parent, xs) && k < |xs|
    ensures xs[k] != parent && xs[k] !in Without(xs, k)
    ensures xs[k] in Nodes(xs) && Nodes(Without(xs, k)) <= Nodes(xs)
  {
  }
}
