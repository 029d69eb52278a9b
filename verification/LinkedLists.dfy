/** The circular doubly linked list with a cursor, and the non-wrapping cursor moves of the linear one. */
module LinkedLists {
  import opened Sequences

  class Node<T> {
    var item: T
    var previous: Node?<T>
    var next: Node?<T>

    constructor (item: T)
      ensures this.item == item
    {
      this.item := item;
      previous, next := null, null;
    }
  }

  // next and previous go once around the nodes, in opposite directions
  ghost predicate Ring<T>(nodes: seq<Node<T>>)
    reads nodes
  {
    && Different(nodes)
    && (forall i :: 0 <= i < |nodes| ==> nodes[i].next == nodes[After(i, |nodes|)])
    && (forall i :: 0 <= i < |nodes| ==> nodes[i].previous == nodes[Before(i, |nodes|)])
  }

  function After(i: nat, n: nat): (j: nat)
    requires i < n
    ensures j < n
  {
    if i + 1 < n then i + 1 else 0
  }

  function Before(i: nat, n: nat): (j: nat)
    requires i < n
    ensures j < n
  {
    if i > 0 then i - 1 else n - 1
  }

  ghost predicate Holds<T>(nodes: seq<Node<T>>, items: seq<T>)
    reads nodes
  {
    |nodes| == |items| && forall i :: 0 <= i < |nodes| ==> nodes[i].item == items[i]
  }

  ghost predicate Different<T>(nodes: seq<Node<T>>) {
    forall i, j :: 0 <= i < j < |nodes| ==> nodes[i] != nodes[j]
  }

  // position k on a ring of n, counting n as 0
  function Wrap(k: nat, n: nat): (j: nat)
    requires k <= n && n > 0
    ensures j < n
  {
    if k == n then 0 else k
  }

  // the pointers of the old ring once x stands before position k
  ghost predicate Opened<T>(nodes: seq<Node<T>>, k: nat, x: Node<T>)
    requires |nodes| >= 1 && k <= |nodes|
    reads nodes, x
  {
    var n := |nodes|;
    && (forall j :: 0 <= j < n ==> nodes[j].next == if j == Before(Wrap(k, n), n) then x else nodes[After(j, n)])
    && (forall j :: 0 <= j < n ==> nodes[j].previous == if j == Wrap(k, n) then x else nodes[Before(j, n)])
    && x.next == nodes[Wrap(k, n)] && x.previous == nodes[Before(Wrap(k, n), n)]
  }

  lemma InsertedNext<T>(nodes: seq<Node<T>>, k: nat, x: Node<T>, i: nat)
    requires |nodes| >= 1 && k <= |nodes| && i <= |nodes| && Opened(nodes, k, x)
    ensures var r, n := Inserted(nodes, k, x), |nodes| + 1;
            r[i].next == r[After(i, n)]
  {
    var r, j := Inserted(nodes, k, x), After(i, |nodes| + 1);
    assert r[i] == if i < k then nodes[i] else if i == k then x else nodes[i - 1];
    assert r[j] == if j < k then nodes[j] else if j == k then x else nodes[j - 1];
  }

  lemma InsertedPrevious<T>(nodes: seq<Node<T>>, k: nat, x: Node<T>, i: nat)
    requires |nodes| >= 1 && k <= |nodes| && i <= |nodes| && Opened(nodes, k, x)
    ensures var r, n := Inserted(nodes, k, x), |nodes| + 1;
            r[i].previous == r[Before(i, n)]
  {
    var r, j := Inserted(nodes, k, x), Before(i, |nodes| + 1);
    assert r[i] == if i < k then nodes[i] else if i == k then x else nodes[i - 1];
    assert r[j] == if j < k then nodes[j] else if j == k then x else nodes[j - 1];
  }

  lemma InsertedRing<T>(nodes: seq<Node<T>>, k: nat, x: Node<T>)
    requires |nodes| >= 1 && k <= |nodes| && Different(nodes) && x !in nodes && Opened(nodes, k, x)
    ensures Ring(Inserted(nodes, k, x))
  {
    hide After, Before, Inserted, Opened;
    InsertedDifferent(nodes, k, x);
    forall i | 0 <= i < |nodes| + 1
      ensures var r, n := Inserted(nodes, k, x), |nodes| + 1;
              r[i].next == r[After(i, n)] && r[i].previous == r[Before(i, n)]
    {
      InsertedNext(nodes, k, x, i);
      InsertedPrevious(nodes, k, x, i);
    }
  }

  lemma InsertedDifferent<T>(nodes: seq<Node<T>>, k: nat, x: Node<T>)
    requires k <= |nodes| && Different(nodes) && x !in nodes
    ensures Different(Inserted(nodes, k, x))
  {
  }

  // the four pointer writes that put x between its neighbours
  method Splice<T>(x: Node<T>, a: Node<T>, b: Node<T>, ghost nodes: seq<Node<T>>, ghost k: nat)
    requires |nodes| >= 1 && k <= |nodes| && Ring(nodes) && x !in nodes
    requires b == nodes[Wrap(k, |nodes|)] && a == nodes[Before(Wrap(k, |nodes|), |nodes|)]
    modifies x`next, x`previous, a`next, b`previous
    ensures Ring(Inserted(nodes, k, x))
  {
    hide After, Before, Wrap, Inserted;
    a.next := x;
    x.previous := a;
    b.previous := x;
    x.next := b;
    InsertedRing(nodes, k, x);
  }

  // the pointers of the old ring once the node at k is passed by on both sides
  ghost predicate Closed<T>(nodes: seq<Node<T>>, k: nat)
    requires k < |nodes|
    reads nodes
  {
    var n := |nodes|;
    && (forall j :: 0 <= j < n ==>
      nodes[j].next == if j == Before(k, n) then nodes[After(k, n)] else nodes[After(j, n)])
    && (forall j :: 0 <= j < n ==>
      nodes[j].previous == if j == After(k, n) then nodes[Before(k, n)] else nodes[Before(j, n)])
  }

  lemma RemovedNext<T>(nodes: seq<Node<T>>, k: nat, i: nat)
    requires |nodes| >= 2 && k < |nodes| && i + 1 < |nodes| && Closed(nodes, k)
    ensures var r, n := Removed(nodes, k), |nodes| - 1;
            r[i].next == r[After(i, n)]
  {
    var r, j := Removed(nodes, k), After(i, |nodes| - 1);
    assert r[i] == nodes[if i < k then i else i + 1];
    assert r[j] == nodes[if j < k then j else j + 1];
  }

  lemma RemovedPrevious<T>(nodes: seq<Node<T>>, k: nat, i: nat)
    requires |nodes| >= 2 && k < |nodes| && i + 1 < |nodes| && Closed(nodes, k)
    ensures var r, n := Removed(nodes, k), |nodes| - 1;
            r[i].previous == r[Before(i, n)]
  {
    var r, j := Removed(nodes, k), Before(i, |nodes| - 1);
    assert r[i] == nodes[if i < k then i else i + 1];
    assert r[j] == nodes[if j < k then j else j + 1];
  }

  lemma RemovedDifferent<T>(nodes: seq<Node<T>>, k: nat)
    requires k < |nodes| && Different(nodes)
    ensures Different(Removed(nodes, k)) && nodes[k] !in Removed(nodes, k)
  {
  }

  lemma RemovedRing<T>(nodes: seq<Node<T>>, k: nat)
    requires |nodes| >= 2 && k < |nodes| && Different(nodes) && Closed(nodes, k)
    ensures Ring(Removed(nodes, k))
  {
    hide After, Before, Removed, Closed;
    RemovedDifferent(nodes, k);
    forall i | 0 <= i < |nodes| - 1
      ensures var r, n := Removed(nodes, k), |nodes| - 1;
              r[i].next == r[After(i, n)] && r[i].previous == r[Before(i, n)]
    {
      RemovedNext(nodes, k, i);
      RemovedPrevious(nodes, k, i);
    }
  }

  // each of the two pointer writes that pass x by
  method PassNext<T>(x: Node<T>, a: Node<T>, ghost nodes: seq<Node<T>>, ghost k: nat)
    requires |nodes| >= 2 && k < |nodes| && Ring(nodes) && x == nodes[k] && a == nodes[Before(k, |nodes|)]
    modifies a`next
    ensures forall j :: 0 <= j < |nodes| ==>
              nodes[j].next == if j == Before(k, |nodes|) then nodes[After(k, |nodes|)] else nodes[After(j, |nodes|)]
  {
    hide After, Before;
    a.next := x.next;
  }

  method PassPrevious<T>(x: Node<T>, b: Node<T>, ghost nodes: seq<Node<T>>, ghost k: nat)
    requires |nodes| >= 2 && k < |nodes| && Different(nodes) && x == nodes[k] && b == nodes[After(k, |nodes|)]
    requires forall i :: 0 <= i < |nodes| ==> nodes[i].previous == nodes[Before(i, |nodes|)]
    modifies b`previous
    ensures forall j :: 0 <= j < |nodes| ==>
              nodes[j].previous == if j == After(k, |nodes|) then nodes[Before(k, |nodes|)]
                else nodes[Before(j, |nodes|)]
  {
    hide After, Before;
    b.previous := x.previous;
  }

  method Bypass<T>(x: Node<T>, a: Node<T>, b: Node<T>, ghost nodes: seq<Node<T>>, ghost k: nat)
    requires |nodes| >= 2 && k < |nodes| && Ring(nodes) && x == nodes[k]
    requires a == nodes[Before(k, |nodes|)] && b == nodes[After(k, |nodes|)]
    modifies a`next, b`previous
    ensures Different(nodes) && Closed(nodes, k)
  {
    hide After, Before;
    PassNext(x, a, nodes, k);
    PassPrevious(x, b, nodes, k);
  }

  method Unsplice<T>(x: Node<T>, a: Node<T>, b: Node<T>, ghost nodes: seq<Node<T>>, ghost k: nat)
    requires |nodes| >= 2 && k < |nodes| && Ring(nodes) && x == nodes[k]
    requires a == nodes[Before(k, |nodes|)] && b == nodes[After(k, |nodes|)]
    modifies a`next, b`previous
    ensures Ring(Removed(nodes, k))
  {
    hide After, Before, Removed, Ring, Closed;
    Bypass(x, a, b, nodes, k);
    RemovedRing(nodes, k);
  }

  class CircularLinkedList<T(==)> {
    var listSize: nat
    var root: Node?<T>
    var position: Node?<T>
    // the nodes from the root on, the items they hold, and the index of the position
    ghost var nodes: seq<Node<T>>
    ghost var items: seq<T>
    ghost var cursor: nat
    ghost var repr: set<object>

    ghost predicate Valid()
      reads this, repr
      ensures Valid() ==> this in repr
    {
      && this in repr && (forall i :: 0 <= i < |nodes| ==> nodes[i] in repr)
      && listSize == |nodes| == |items| && Ring(nodes) && Holds(nodes, items)
      && (if nodes == [] then root == null && position == null && cursor == 0
          else cursor < |nodes| && root == nodes[0] && position == nodes[cursor])
    }

    constructor ()
      ensures Valid() && items == [] && fresh(repr)
    {
      root, position, listSize := null, null, 0;
      nodes, items, cursor, repr := [], [], 0, {this};
    }

    function Size(): nat
      reads this
    {
      listSize
    }

    method Beginning()
      requires Valid()
      modifies this`position, this`cursor
      ensures Valid() && cursor == 0
    {
      if root != null {
        position := root;
        cursor := 0;
      }
    }

    method End()
      requires Valid()
      modifies this`position, this`cursor
      ensures Valid() && cursor == if |items| == 0 then 0 else |items| - 1
    {
      if root != null {
        position := root.previous;
        cursor := |nodes| - 1;
      }
    }

    // ++ and -- of the circular list wrap around the root
    method Advance()
      requires Valid()
      modifies this`position, this`cursor
      ensures Valid() && cursor == if old(cursor) + 1 < |items| then old(cursor) + 1 else 0
    {
      if listSize != 0 {
        position := position.next;
        cursor := After(cursor, |nodes|);
      }
    }

    method Retreat()
      requires Valid()
      modifies this`position, this`cursor
      ensures Valid()
      ensures cursor == if old(cursor) > 0 then old(cursor) - 1 else if |items| > 0 then |items| - 1 else 0
    {
      if listSize != 0 {
        position := position.previous;
        cursor := Before(cursor, |nodes|);
      }
    }

    // ++ and -- of the linear list stop at its ends
    method AdvanceWithin()
      requires Valid()
      modifies this`position, this`cursor
      ensures Valid() && cursor == if old(cursor) + 1 < |items| then old(cursor) + 1 else old(cursor)
    {
      if listSize != 0 && position.next != root {
        position := position.next;
        cursor := cursor + 1;
      }
    }

    method RetreatWithin()
      requires Valid()
      modifies this`position, this`cursor
      ensures Valid() && cursor == if old(cursor) > 0 then old(cursor) - 1 else 0
    {
      if listSize != 0 && position != root {
        position := position.previous;
        cursor := cursor - 1;
      }
    }

    method Peek() returns (item: T)
      requires Valid() && items != []
      ensures item == items[cursor]
    {
      item := position.item;
    }

    // a new node put in at index k, between the given neighbours
    method LinkNew(input: T, a: Node<T>, b: Node<T>, ghost k: nat) returns (x: Node<T>)
      requires Valid() && |nodes| >= 1 && k <= |nodes|
      requires b == nodes[Wrap(k, |nodes|)] && a == nodes[Before(Wrap(k, |nodes|), |nodes|)]
      modifies this`nodes, this`items, this`repr, repr - {this}
      ensures fresh(x) && nodes == Inserted(old(nodes), k, x) && items == Inserted(old(items), k, input)
      ensures Ring(nodes) && Holds(nodes, items) && (forall i :: 0 <= i < |nodes| ==> nodes[i] in repr)
      ensures repr == old(repr) + {x}
    {
      hide Before, After, Wrap, Ring;
      x := new Node(input);
      Splice(x, a, b, nodes, k);
      nodes := Inserted(nodes, k, x);
      items := Inserted(items, k, input);
      repr := repr + {x};
    }

    method MakeFirst(input: T)
      requires Valid() && items == []
      modifies this
      ensures Valid() && items == [input] && cursor == 0 && fresh(repr - old(repr))
    {
      root := new Node(input);
      root.next, root.previous := root, root;
      listSize := 1;
      position := root;
      nodes, items, cursor, repr := [root], [input], 0, repr + {root};
    }

    // the neighbours of a slot next to the position
    lemma Slots()
      requires Valid() && nodes != []
      ensures Wrap(cursor, |nodes|) == cursor && position.previous == nodes[Before(cursor, |nodes|)]
      ensures position.next == nodes[Wrap(cursor + 1, |nodes|)] && Before(Wrap(cursor + 1, |nodes|), |nodes|) == cursor
      ensures position == root <==> cursor == 0
    {
    }

    method InsertSecond(input: T)
      requires Valid() && |items| == 1
      modifies repr
      ensures Valid() && items == Inserted(old(items), 0, input) && cursor == 0
      ensures fresh(repr - old(repr))
    {
      hide Ring, Holds;
      position := LinkNew(input, root, root, 0);
      root := position;
      listSize := 2;
    }

    method InsertBetween(input: T)
      requires Valid() && |items| >= 2
      modifies repr
      ensures Valid() && items == Inserted(old(items), old(cursor), input)
      ensures cursor == if old(cursor) == 0 then 0 else old(cursor) + 1
      ensures fresh(repr - old(repr))
    {
      hide Ring, Holds, Wrap, Before, After;
      Slots();
      var newNode := LinkNew(input, position.previous, position, cursor);
      if position == root {
        root := newNode;
        position := root;
      } else {
        cursor := cursor + 1;
      }
      listSize := listSize + 1;
    }

    // before the position; the position stays on its node, except at the root where the new node becomes the root
    method Insert(input: T)
      requires Valid()
      modifies repr
      ensures Valid() && items == Inserted(old(items), old(cursor), input)
      ensures cursor == if old(cursor) == 0 then 0 else old(cursor) + 1
      ensures fresh(repr - old(repr))
    {
      hide Ring, Holds;
      if listSize == 0 {
        MakeFirst(input);
      } else if listSize == 1 {
        InsertSecond(input);
      } else {
        InsertBetween(input);
      }
    }

    method AddSecond(input: T) returns (item: T)
      requires Valid() && |items| == 1
      modifies repr
      ensures Valid() && items == Inserted(old(items), 1, input) && cursor == 0 && item == old(items)[0]
      ensures fresh(repr - old(repr))
    {
      hide Ring;
      position := LinkNew(input, root, root, 1);
      listSize := 2;
      position := root;
      item := position.item;
    }

    method AddBetween(input: T) returns (item: T)
      requires Valid() && |items| >= 2
      modifies repr
      ensures Valid() && items == Inserted(old(items), old(cursor) + 1, input) && cursor == old(cursor) && item == input
      ensures fresh(repr - old(repr))
    {
      hide Ring, Wrap, Before, After;
      Slots();
      var newNode := LinkNew(input, position, position.next, cursor + 1);
      listSize := listSize + 1;
      item := newNode.item;
      assert nodes[cursor + 1] == newNode;
    }

    // after the position, which does not move; on a list of one the item returned is the old one
    method Add(input: T) returns (item: T)
      requires Valid()
      modifies repr
      ensures Valid() && cursor == old(cursor)
      ensures items == if old(items) == [] then [input] else Inserted(old(items), old(cursor) + 1, input)
      ensures item == if |old(items)| == 1 then old(items)[0] else input
      ensures fresh(repr - old(repr))
    {
      hide Ring, Holds;
      if listSize == 0 {
        MakeFirst(input);
        item := Peek();
      } else if listSize == 1 {
        item := AddSecond(input);
      } else {
        item := AddBetween(input);
      }
    }

    method Replace(input: T)
      requires Valid()
      modifies this`items, repr
      ensures Valid() && cursor == old(cursor) && |items| == |old(items)|
      ensures items == if old(items) == [] then [] else old(items)[old(cursor) := input]
    {
      if listSize > 0 {
        position.item := input;
        items := items[cursor := input];
      }
    }

    method DelOfMany()
      requires Valid() && |items| >= 2
      modifies repr
      ensures Valid() && items == Removed(old(items), old(cursor))
      ensures cursor == if old(cursor) + 1 < |old(items)| then old(cursor) else 0
      ensures repr == old(repr)
    {
      hide Ring, Before, After;
      Neighbours();
      ghost var left, next := Removed(nodes, cursor), After(cursor, |nodes|);
      NextAfterRemoval(cursor, |nodes|);
      Unsplice(position, position.previous, position.next, nodes, cursor);
      var newPosition := position.next;
      if position == root {
        root := newPosition;
      }
      position := newPosition;
      listSize := listSize - 1;
      nodes, items := left, Removed(items, cursor);
      cursor := if cursor < |nodes| then cursor else 0;
    }

    lemma Neighbours()
      requires Valid() && |nodes| >= 2
      ensures position.previous == nodes[Before(cursor, |nodes|)] && position.next == nodes[After(cursor, |nodes|)]
      ensures position.previous != position && position.next != position && (position == root <==> cursor == 0)
    {
    }

    lemma NextAfterRemoval(k: nat, n: nat)
      requires 2 <= n && k < n
      ensures After(k, n) == if k + 1 < n then k + 1 else 0
    {
    }

    // The position moves on to the next node, around the end to the root; removing the root moves the root on.
    method Del()
      requires Valid()
      modifies repr
      ensures Valid() && items == if old(items) == [] then [] else Removed(old(items), old(cursor))
      ensures cursor == if old(cursor) + 1 < |old(items)| then old(cursor) else 0
      ensures repr == old(repr)
    {
      if listSize == 0 {
        return;
      } else if listSize == 1 {
        root, position := null, null;
        listSize := 0;
        nodes, items, cursor := [], [], 0;
      } else {
        DelOfMany();
      }
    }

    method Pop() returns (element: T)
      requires Valid() && items != []
      modifies repr
      ensures Valid() && element == old(items)[old(cursor)] && items == Removed(old(items), old(cursor))
      ensures cursor == if old(cursor) + 1 < |old(items)| then old(cursor) else 0
      ensures repr == old(repr)
    {
      element := Peek();
      Del();
    }

    // The nodes are deleted in the original; here they are only let go.
    method Clear()
      requires Valid()
      modifies this
      ensures Valid() && items == [] && repr == old(repr)
    {
      listSize := 0;
      root, position := null, null;
      nodes, items, cursor := [], [], 0;
    }

    // one more node at the open end of a chain under construction
    static method Grow(last: Node<T>, item: T, ghost chain: seq<Node<T>>, ghost values: seq<T>) returns (x: Node<T>)
      requires Chain(chain, values) && chain != [] && last == chain[|chain| - 1]
      modifies last`next
      ensures fresh(x) && Chain(chain + [x], values + [item])
    {
      x := new Node(item);
      x.previous := last;
      last.next := x;
    }

    static method Close(first: Node<T>, last: Node<T>, ghost chain: seq<Node<T>>, ghost values: seq<T>)
      requires Chain(chain, values) && chain != [] && first == chain[0] && last == chain[|chain| - 1]
      modifies first`previous, last`next
      ensures Ring(chain) && Holds(chain, values)
    {
      last.next := first;
      first.previous := last;
    }

    // operator=: a fresh copy of the items, with the position on the copy of the other list's position;
    // a list assigned to itself stays as it is
    method Assign(other: CircularLinkedList<T>)
      requires Valid() && other.Valid()
      modifies this
      ensures Valid() && items == old(other.items) && cursor == old(other.cursor) && fresh(repr - old(repr))
    {
      if other == this {
        return;
      }
      Clear();
      if other.listSize == 0 {
        return;
      }
      if other.listSize == 1 {
        MakeFirst(other.root.item);
      } else {
        CopyMany(other);
      }
    }

    method CopyMany(other: CircularLinkedList<T>)
      requires other.Valid() && other != this && |other.items| >= 2 && this in repr
      modifies this
      ensures Valid() && items == other.items && cursor == other.cursor && fresh(repr - old(repr))
    {
      hide Ring, Holds, Chain;
      ghost var chain;
      root, position, chain := CopyChain(other);
      nodes, items, cursor := chain, other.items, other.cursor;
      listSize := other.listSize;
      repr := repr + set m | m in chain;
    }

    // the copying loop, which also notes the copy of the other list's position
    static method CopyChain(other: CircularLinkedList<T>)
      returns (first: Node<T>, save: Node<T>, ghost chain: seq<Node<T>>)
      requires other.Valid() && |other.items| >= 2
      ensures fresh(chain) && |chain| == |other.items| && first == chain[0] && save == chain[other.cursor]
      ensures Ring(chain) && Holds(chain, other.items)
    {
      hide Ring, Holds, Chain;
      other.First();
      var source := other.root;
      first := new Node(source.item);
      save := first;
      var last := first;
      ghost var k, values := 0, [source.item];
      chain := [first];
      StartChain(first, source.item);
      while source.next != other.root
        invariant other.Valid() && k < |other.nodes| && source == other.nodes[k] && |chain| == k + 1
        invariant values == other.items[..k + 1] && fresh(chain) && Chain(chain, values)
        invariant first == chain[0] && last == chain[k] && (other.cursor <= k ==> save == chain[other.cursor])
        decreases |other.nodes| - k
      {
        other.NotLast(k);
        other.ItemAt(k + 1);
        source := source.next;
        last := Grow(last, source.item, chain, values);
        chain, values, k := chain + [last], values + [source.item], k + 1;
        other.OnePlace(k);
        if source == other.position {
          save := last;
        }
      }
      other.Last(k);
      assert other.items[..k + 1] == other.items;
      Close(first, last, chain, values);
    }

    // one round of appending: an item after the position, which then moves onto it
    method AddAndAdvance(item: T)
      requires Valid() && (items != [] ==> cursor == |items| - 1)
      modifies repr
      ensures Valid() && items == old(items) + [item] && cursor == |items| - 1
      ensures fresh(repr - old(repr))
    {
      hide Ring, Holds;
      var _ := Add(item);
      Advance();
    }

    // Appends the other list and leaves the position at the end. Onto an empty list the original
    // first copies the other list and then appends it as well.
    method Concatenate(other: CircularLinkedList<T>)
      requires Valid() && other.Valid() && repr !! other.repr
      modifies repr
      ensures Valid() && other.Valid() && fresh(repr - old(repr))
      ensures items == if old(items) == [] then other.items + other.items else old(items) + other.items
      ensures other.items != [] ==> cursor == |items| - 1
      ensures other.items == [] ==> cursor == old(cursor)
    {
      hide Ring, Holds;
      if other.listSize == 0 {
        return;
      }
      if listSize == 0 {
        Assign(other);
      }
      End();
      AppendAll(other);
    }

    method AppendAll(other: CircularLinkedList<T>)
      requires Valid() && other.Valid() && repr !! other.repr
      requires items != [] && cursor == |items| - 1 && other.items != []
      modifies repr
      ensures Valid() && other.Valid() && fresh(repr - old(repr))
      ensures items == old(items) + other.items && cursor == |items| - 1
    {
      hide Ring, Holds, Inserted;
      other.First();
      var source, counter := other.root, 0;
      assert other.items[..0] == [];
      while counter < other.listSize
        invariant Valid() && other.Valid() && counter <= |other.items|
        invariant items == old(items) + other.items[..counter] && cursor == |items| - 1
        invariant counter < |other.items| ==> source == other.nodes[counter]
        invariant fresh(repr - old(repr)) && repr !! other.repr
      {
        other.ItemAt(counter);
        other.StepOn(counter);
        AddAndAdvance(source.item);
        assert other.items[..counter + 1] == other.items[..counter] + [other.items[counter]];
        source := source.next;
        counter := counter + 1;
      }
      assert other.items[..counter] == other.items;
    }

    // the first node holding the input, looking from the root
    method FindPointer(input: T) returns (node: Node?<T>, ghost k: nat)
      requires Valid()
      ensures node != null <==> input in items
      ensures node != null ==> k < |nodes| && node == nodes[k] && items[k] == input && input !in items[..k]
    {
      hide Ring, Holds;
      k := 0;
      if listSize == 0 {
        return null, 0;
      }
      First();
      node := root;
      while true
        invariant k < |nodes| && node == nodes[k] && input !in items[..k]
        decreases |nodes| - k
      {
        ItemAt(k);
        if node.item == input {
          return;
        }
        StepOn(k);
        OneRoot();
        if node.next == root {
          assert items == items[..k] + [items[k]];
          return null, 0;
        }
        node := node.next;
        k := k + 1;
      }
    }

    lemma OneRoot()
      requires Valid() && nodes != []
      ensures forall k :: 0 <= k < |nodes| ==> (nodes[k] == root <==> k == 0)
    {
    }

    // moves the position only when the item is there
    method Find(input: T) returns (found: bool)
      requires Valid()
      modifies this`position, this`cursor
      ensures Valid() && (found <==> input in items)
      ensures if found then items[cursor] == input && input !in items[..cursor] else cursor == old(cursor)
    {
      var node, k := FindPointer(input);
      if node != null {
        position := node;
        cursor := k;
        return true;
      }
      return false;
    }

    lemma StepOn(k: nat)
      requires Valid() && k < |nodes|
      ensures nodes[k].next == if k + 1 < |nodes| then nodes[k + 1] else nodes[0]
    {
    }

    lemma First()
      requires Valid() && nodes != []
      ensures root == nodes[0] && nodes[0].item == items[0]
      ensures root == position <==> cursor == 0
    {
    }

    lemma ItemAt(k: nat)
      requires Valid() && k < |nodes|
      ensures nodes[k].item == items[k]
    {
    }

    // stepping from node k either reaches node k + 1 or is back at the root
    lemma NotLast(k: nat)
      requires Valid() && k < |nodes| && nodes[k].next != root
      ensures k + 1 < |nodes| && nodes[k].next == nodes[k + 1]
    {
    }

    lemma Last(k: nat)
      requires Valid() && k < |nodes| && nodes[k].next == root
      ensures k + 1 == |nodes|
    {
    }

    lemma OnePlace(k: nat)
      requires Valid() && k < |nodes|
      ensures nodes[k] == position <==> k == cursor
    {
    }
  }

  // nodes linked both ways from the first to the last, the ends still open
  ghost predicate Chain<T>(chain: seq<Node<T>>, values: seq<T>)
    reads chain
  {
    && Different(chain) && Holds(chain, values)
    && (forall i :: 0 <= i < |chain| - 1 ==> chain[i].next == chain[i + 1])
    && (forall i :: 0 < i < |chain| ==> chain[i].previous == chain[i - 1])
  }

  lemma StartChain<T>(x: Node<T>, item: T)
    requires x.item == item
    ensures Chain([x], [item])
  {
  }
}
