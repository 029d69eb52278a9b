/** The merge sort of the circular list. The halves are filled by Add at a position that does not
    move, so each half comes out with everything after its first item reversed. */
module LinkedSort {
  import opened Sequences
  import opened LinkedLists

  // what a comparison by < has to be: a strict weak order
  ghost predicate Order<T(!new)>(less: (T, T) -> bool) {
    && (forall a, b :: less(a, b) ==> !less(b, a))
    && (forall a, b, c :: !less(b, a) && !less(c, b) ==> !less(c, a))
  }

  lemma NotLess<T(!new)>(less: (T, T) -> bool, a: T, b: T)
    requires Order(less) && less(a, b)
    ensures !less(b, a)
  {
  }

  lemma Transitive<T(!new)>(less: (T, T) -> bool, a: T, b: T, c: T)
    requires Order(less) && !less(b, a) && !less(c, b)
    ensures !less(c, a)
  {
  }

  lemma Reflexive<T(!new)>(less: (T, T) -> bool, a: T)
    requires Order(less)
    ensures !less(a, a)
  {
  }

  // no item is less than one before it
  predicate Ascending<T>(less: (T, T) -> bool, s: seq<T>) {
    forall i, j :: 0 <= i < j < |s| ==> !less(s[j], s[i])
  }

  function MergeItems<T(==)>(less: (T, T) -> bool, a: seq<T>, b: seq<T>): (r: seq<T>)
    decreases |a| + |b|
  {
    if a == [] then b
    else if b == [] then a
    else if less(a[0], b[0]) then [a[0]] + MergeItems(less, a[1..], b)
    else [b[0]] + MergeItems(less, a, b[1..])
  }

  // what repeated Add at an unmoving position makes of the items in order
  function Filled<T>(s: seq<T>): seq<T>
    decreases |s|
  {
    if |s| <= 1 then s else Inserted(Filled(s[..|s| - 1]), 1, s[|s| - 1])
  }

  lemma {:induction false} MergePermutes<T>(less: (T, T) -> bool, a: seq<T>, b: seq<T>)
    ensures multiset(MergeItems(less, a, b)) == multiset(a) + multiset(b)
    ensures forall x :: x in MergeItems(less, a, b) ==> x in a || x in b
    decreases |a| + |b|
  {
    if a != [] && b != [] {
      if less(a[0], b[0]) {
        MergePermutes(less, a[1..], b);
        FirstAndRest(a);
      } else {
        MergePermutes(less, a, b[1..]);
        FirstAndRest(b);
      }
    }
    MergeMembers(less, a, b);
  }

  lemma FirstAndRest<T>(s: seq<T>)
    requires s != []
    ensures multiset(s) == multiset([s[0]]) + multiset(s[1..])
  {
    assert s == [s[0]] + s[1..];
  }

  lemma {:induction false} MergeMembers<T>(less: (T, T) -> bool, a: seq<T>, b: seq<T>)
    ensures forall x :: x in MergeItems(less, a, b) ==> x in a || x in b
    decreases |a| + |b|
  {
    if a != [] && b != [] {
      if less(a[0], b[0]) {
        MergeMembers(less, a[1..], b);
      } else {
        MergeMembers(less, a, b[1..]);
      }
    }
  }

  lemma Prepend<T(!new)>(less: (T, T) -> bool, first: T, r: seq<T>)
    requires Ascending(less, r) && forall x :: x in r ==> !less(x, first)
    ensures Ascending(less, [first] + r)
  {
    assert forall i :: 0 <= i < |r| ==> r[i] in r;
  }

  lemma Front<T(!new)>(less: (T, T) -> bool, s: seq<T>)
    requires Order(less) && Ascending(less, s) && s != []
    ensures Ascending(less, s[1..]) && forall x :: x in s ==> !less(x, s[0])
  {
    hide Order;
    Reflexive(less, s[0]);
  }

  // nothing in either list is less than an item that is not above their first ones
  lemma MergeFrom<T(!new)>(less: (T, T) -> bool, least: T, rest: seq<T>, other: seq<T>, first: T)
    requires Order(less) && !less(first, least)
    requires (forall x :: x in rest ==> !less(x, least)) && forall x :: x in other ==> !less(x, first)
    ensures forall x :: x in rest || x in other ==> !less(x, least)
  {
    hide Order;
    forall x | x in other
      ensures !less(x, least)
    {
      Transitive(less, least, first, x);
    }
  }

  lemma {:induction false} MergeAscends<T(!new)>(less: (T, T) -> bool, a: seq<T>, b: seq<T>)
    requires Order(less) && Ascending(less, a) && Ascending(less, b)
    ensures Ascending(less, MergeItems(less, a, b))
    decreases |a| + |b|
  {
    hide Ascending, Order;
    if a != [] && b != [] {
      Front(less, a);
      Front(less, b);
      if less(a[0], b[0]) {
        NotLess(less, a[0], b[0]);
        MergeAscends(less, a[1..], b);
        MergeFrom(less, a[0], a[1..], b, b[0]);
        MergePermutes(less, a[1..], b);
        Prepend(less, a[0], MergeItems(less, a[1..], b));
      } else {
        MergeAscends(less, a, b[1..]);
        MergeFrom(less, b[0], b[1..], a, a[0]);
        MergePermutes(less, a, b[1..]);
        Prepend(less, b[0], MergeItems(less, a, b[1..]));
      }
    }
  }

  // the items neither less nor greater than one
  function Equals<T>(less: (T, T) -> bool, s: seq<T>, e: T): seq<T> {
    if s == [] then [] else
      (if !less(s[0], e) && !less(e, s[0]) then [s[0]] else []) + Equals(less, s[1..], e)
  }

  lemma {:induction false} NoEquals<T(!new)>(less: (T, T) -> bool, s: seq<T>, e: T)
    requires forall x :: x in s ==> less(e, x)
    ensures Equals(less, s, e) == []
  {
    if s != [] {
      assert s[0] in s;
      NoEquals(less, s[1..], e);
    }
  }

  // Among equal items those of the second list come first, each list in its own order.
  lemma {:induction false} MergeTies<T(!new)>(less: (T, T) -> bool, a: seq<T>, b: seq<T>, e: T)
    requires Order(less) && Ascending(less, a) && Ascending(less, b)
    ensures Equals(less, MergeItems(less, a, b), e) == Equals(less, b, e) + Equals(less, a, e)
    decreases |a| + |b|
  {
    hide Ascending, Order;
    if a != [] && b != [] {
      Front(less, a);
      Front(less, b);
      if less(a[0], b[0]) {
        MergeTies(less, a[1..], b, e);
        if !less(a[0], e) && !less(e, a[0]) {
          LessThanAll(less, e, a[0], b);
          NoEquals(less, b, e);
        }
      } else {
        MergeTies(less, a, b[1..], e);
      }
    }
  }

  lemma LessThanAll<T(!new)>(less: (T, T) -> bool, e: T, first: T, b: seq<T>)
    requires Order(less) && b != [] && !less(first, e) && less(first, b[0])
    requires forall x :: x in b ==> !less(x, b[0])
    ensures forall x :: x in b ==> less(e, x)
  {
    hide Order;
    forall x | x in b
      ensures less(e, x)
    {
      if !less(e, x) {
        Transitive(less, b[0], x, e);
        Transitive(less, b[0], e, first);
      }
    }
  }

  lemma {:induction false} FilledPermutes<T>(s: seq<T>)
    ensures |Filled(s)| == |s| && multiset(Filled(s)) == multiset(s)
    decreases |s|
  {
    if |s| > 1 {
      hide Inserted;
      var before, x := s[..|s| - 1], s[|s| - 1];
      FilledPermutes(before);
      LastAdded(s);
      InsertedPermutes(Filled(before), 1, x);
    }
  }

  lemma LastAdded<T>(s: seq<T>)
    requires s != []
    ensures multiset(s) == multiset(s[..|s| - 1]) + multiset{s[|s| - 1]}
  {
    assert s == s[..|s| - 1] + [s[|s| - 1]];
  }

  lemma InsertedPermutes<T>(s: seq<T>, k: nat, x: T)
    requires k <= |s|
    ensures multiset(Inserted(s, k, x)) == multiset(s) + multiset{x}
  {
    assert s == s[..k] + s[k..];
  }

  // the first item stays, and the others come out in reverse
  lemma {:induction false} FilledAt<T>(s: seq<T>, i: nat)
    requires i < |s|
    ensures |Filled(s)| == |s| && Filled(s)[i] == if i == 0 then s[0] else s[|s| - i]
    decreases |s|
  {
    FilledPermutes(s);
    if |s| > 1 {
      FilledPermutes(s[..|s| - 1]);
      FilledAt(s[..|s| - 1], if i <= 1 then 0 else i - 1);
    }
  }

  lemma FirstRemoved<T>(s: seq<T>)
    requires s != []
    ensures Removed(s, 0) == s[1..]
  {
  }

  // compares the two roots and takes the smaller item out, the second list's when they are equal
  method TakeSmaller<T(==)>(less: (T, T) -> bool, l1: CircularLinkedList<T>, l2: CircularLinkedList<T>)
    returns (element: T)
    requires l1.Valid() && l2.Valid() && l1.repr !! l2.repr && l1.items != [] && l2.items != []
    requires l1.cursor == 0 && l2.cursor == 0
    modifies l1.repr, l2.repr
    ensures l1.Valid() && l2.Valid() && l1.repr == old(l1.repr) && l2.repr == old(l2.repr)
    ensures l1.cursor == 0 && l2.cursor == 0
    ensures MergeItems(less, old(l1.items), old(l2.items)) == [element] + MergeItems(less, l1.items, l2.items)
    ensures |l1.items| + |l2.items| == old(|l1.items| + |l2.items|) - 1
    ensures l1.items != [] || l2.items != []
  {
    hide Ring, Holds, Removed;
    l1.First();
    l2.First();
    FirstRemoved(l1.items);
    FirstRemoved(l2.items);
    if less(l1.root.item, l2.root.item) {
      element := l1.root.item;
      l1.Del();
    } else {
      element := l2.root.item;
      l2.Del();
    }
  }

  // the loop while neither list is empty: what went to x and what is left merge to the same items
  method MergeBoth<T(==)>(less: (T, T) -> bool, x: CircularLinkedList<T>, l1: CircularLinkedList<T>,
                     l2: CircularLinkedList<T>)
    requires x.Valid() && l1.Valid() && l2.Valid() && l1.repr !! l2.repr && x.repr !! l1.repr + l2.repr
    requires x.items == [] && l1.items != [] && l2.items != [] && l1.cursor == 0 && l2.cursor == 0
    modifies x.repr, l1.repr, l2.repr
    ensures x.Valid() && l1.Valid() && l2.Valid() && l1.repr == old(l1.repr) && l2.repr == old(l2.repr) &&
            fresh(x.repr - old(x.repr))
    ensures x.items + MergeItems(less, l1.items, l2.items) == MergeItems(less, old(l1.items), old(l2.items))
    ensures x.items != [] && (l1.items == [] <==> l2.items != [])
  {
    hide Ring, Holds, MergeItems;
    ghost var all := MergeItems(less, l1.items, l2.items);
    assert [] + all == all;
    while l1.listSize != 0 && l2.listSize != 0
      invariant x.Valid() && l1.Valid() && l2.Valid() && l1.repr == old(l1.repr) && l2.repr == old(l2.repr)
      invariant fresh(x.repr - old(x.repr))
      invariant l1.cursor == 0 && l2.cursor == 0 && (x.items != [] ==> x.cursor == |x.items| - 1)
      invariant x.items + MergeItems(less, l1.items, l2.items) == all
      invariant l1.items == [] || l2.items == [] ==> x.items != []
      invariant l1.items != [] || l2.items != []
      decreases |l1.items| + |l2.items|
    {
      ghost var done := x.items;
      var element := TakeSmaller(less, l1, l2);
      AppendAssoc(done, [element], MergeItems(less, l1.items, l2.items));
      x.AddAndAdvance(element);
    }
  }

  // When the loop ends exactly one of the lists is empty and the result is not, so neither the
  // receiver nor the argument of Concatenate is empty.
  method Merge<T(==)>(less: (T, T) -> bool, l1: CircularLinkedList<T>, l2: CircularLinkedList<T>)
    returns (x: CircularLinkedList<T>)
    requires l1.Valid() && l2.Valid() && l1.repr !! l2.repr && l1.items != [] && l2.items != []
    modifies l1.repr, l2.repr
    ensures x.Valid() && fresh(x.repr) && x.items == MergeItems(less, old(l1.items), old(l2.items))
  {
    hide Ring, Holds, MergeItems;
    x := new CircularLinkedList<T>();
    l1.Beginning();
    l2.Beginning();
    MergeBoth(less, x, l1, l2);
    OneLeft(less, l1.items, l2.items);
    if l1.listSize != 0 {
      x.Concatenate(l1);
    } else {
      x.Concatenate(l2);
    }
  }

  lemma OneLeft<T>(less: (T, T) -> bool, a: seq<T>, b: seq<T>)
    requires a == [] || b == []
    ensures MergeItems(less, a, b) == if a == [] then b else a
  {
  }

  // one round of filling a half
  method FillOne<T(==)>(half: CircularLinkedList<T>, item: T, ghost so: seq<T>)
    requires half.Valid() && half.items == Filled(so) && half.cursor == 0
    modifies half.repr
    ensures half.Valid() && fresh(half.repr - old(half.repr)) && half.items == Filled(so + [item]) && half.cursor == 0
  {
    hide Ring, Holds, Filled;
    FillStep(so, item);
    var _ := half.Add(item);
  }

  method Fill<T(==)>(source: CircularLinkedList<T>, location: Node<T>, from: nat, count: nat)
    returns (half: CircularLinkedList<T>, next: Node<T>)
    requires source.Valid() && from + count <= |source.items| && from < |source.nodes| && location == source.nodes[from]
    ensures half.Valid() && fresh(half.repr) && half.items == Filled(source.items[from..from + count])
    ensures next == source.nodes[if from + count < |source.nodes| then from + count else 0]
  {
    hide Ring, Holds, Filled;
    half := new CircularLinkedList<T>();
    next := location;
    ghost var so := [];
    FilledPermutes<T>([]);
    for counter := 0 to count
      invariant source.Valid() && half.Valid() && fresh(half.repr) && half.cursor == 0
      invariant so == source.items[from..from + counter] && half.items == Filled(so)
      invariant next == source.nodes[if from + counter < |source.nodes| then from + counter else 0]
    {
      source.ItemAt(from + counter);
      source.StepOn(from + counter);
      FillOne(half, next.item, so);
      so := so + [source.items[from + counter]];
      next := next.next;
    }
  }

  lemma FillStep<T>(s: seq<T>, x: T)
    ensures |Filled(s)| == |s|
    ensures Filled(s + [x]) == if s == [] then [x] else Inserted(Filled(s), 1, x)
  {
    FilledPermutes(s);
    assert (s + [x])[..|s|] == s;
  }

  method Halve<T(==)>(list: CircularLinkedList<T>) returns (l1: CircularLinkedList<T>, l2: CircularLinkedList<T>)
    requires list.Valid() && |list.items| >= 2
    ensures l1.Valid() && l2.Valid() && fresh(l1.repr) && fresh(l2.repr) && l1.repr !! l2.repr
    ensures |l1.items| == |list.items| / 2 && |l2.items| == |list.items| - |list.items| / 2
    ensures multiset(l1.items) + multiset(l2.items) == multiset(list.items)
  {
    hide Ring, Holds, Filled;
    ghost var k := list.listSize / 2;
    list.First();
    var location;
    l1, location := Fill(list, list.root, 0, list.listSize / 2);
    l2, location := Fill(list, location, list.listSize / 2, list.listSize - list.listSize / 2);
    FilledPermutes(list.items[0..k]);
    FilledPermutes(list.items[k..|list.items|]);
    assert list.items == list.items[0..k] + list.items[k..|list.items|];
  }

  method Mergesort<T(==,!new)>(less: (T, T) -> bool, list: CircularLinkedList<T>)
    returns (sorted: CircularLinkedList<T>)
    requires list.Valid() && |list.items| >= 2
    ensures sorted.Valid() && fresh(sorted.repr)
    ensures (Order(less) ==> Ascending(less, sorted.items)) && multiset(sorted.items) == multiset(list.items)
    decreases |list.items|, 0
  {
    hide Ring, Holds, MergeItems;
    var l1, l2 := Halve(list);
    ghost var m1, m2 := multiset(l1.items), multiset(l2.items);
    l1 := SortHalf(less, l1);
    l2 := SortHalf(less, l2);
    if Order(less) {
      MergeAscends(less, l1.items, l2.items);
    }
    MergePermutes(less, l1.items, l2.items);
    assert |l1.items| == |m1| && |l2.items| == |m2|;
    sorted := Merge(less, l1, l2);
  }

  // a half of one item is sorted as it is
  method SortHalf<T(==,!new)>(less: (T, T) -> bool, half: CircularLinkedList<T>) returns (sorted: CircularLinkedList<T>)
    requires half.Valid() && half.items != []
    ensures sorted.Valid() && (sorted == half || fresh(sorted.repr))
    ensures (Order(less) ==> Ascending(less, sorted.items)) && multiset(sorted.items) == multiset(half.items)
    decreases |half.items|, 1
  {
    if half.listSize > 1 {
      sorted := Mergesort(less, half);
    } else {
      sorted := half;
    }
  }

  // Sorts in place: the same items, in ascending order, with the position at the root.
  method Sort<T(==,!new)>(less: (T, T) -> bool, list: CircularLinkedList<T>)
    requires list.Valid()
    modifies list.repr
    ensures list.Valid() && fresh(list.repr - old(list.repr))
    ensures (Order(less) ==> Ascending(less, list.items)) && multiset(list.items) == multiset(old(list.items))
    ensures |list.items| > 1 ==> list.cursor == 0
  {
    hide Ring, Holds;
    if list.listSize <= 1 {
      return;
    }
    var sorted := Mergesort(less, list);
    list.Assign(sorted);
    list.Beginning();
  }
}
