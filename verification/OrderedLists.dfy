/** The list kept in the order of its keys, and its binary search. */
module OrderedLists {
  import opened Sequences
  import opened Lists

  datatype MapNode<V> = MapNode(mapNodeKey: int, mapNodeData: V)

  // the default comparison
  function Compare(a: int, b: int): int {
    if a < b then -1 else if a == b then 0 else 1
  }

  predicate Ordered<V>(nodes: seq<MapNode<V>>) {
    forall i, j :: 0 <= i < j < |nodes| ==> nodes[i].mapNodeKey < nodes[j].mapNodeKey
  }

  predicate HasKey<V>(nodes: seq<MapNode<V>>, key: int) {
    exists i :: 0 <= i < |nodes| && nodes[i].mapNodeKey == key
  }

  // everything before index is smaller than the key, and nothing from there on is
  predicate IsSlot<V>(nodes: seq<MapNode<V>>, key: int, index: nat) {
    && index <= |nodes|
    && (forall i :: 0 <= i < index ==> nodes[i].mapNodeKey < key)
    && (forall i :: index <= i < |nodes| ==> key <= nodes[i].mapNodeKey)
  }

  // the insertion point is unique
  lemma OneSlot<V>(nodes: seq<MapNode<V>>, key: int, index: nat, other: nat)
    requires IsSlot(nodes, key, index) && IsSlot(nodes, key, other)
    ensures index == other
  {
    assert index < |nodes| ==> (nodes[index].mapNodeKey < key <==> index < other);
    assert other < |nodes| ==> (nodes[other].mapNodeKey < key <==> other < index);
  }

  lemma SlotOfHit<V>(nodes: seq<MapNode<V>>, key: int, index: nat)
    requires Ordered(nodes) && index < |nodes| && nodes[index].mapNodeKey == key
    ensures IsSlot(nodes, key, index) && HasKey(nodes, key)
  {
  }

  lemma NoHit<V>(nodes: seq<MapNode<V>>, key: int, index: nat)
    requires index <= |nodes|
    requires forall i :: 0 <= i < index ==> nodes[i].mapNodeKey < key
    requires forall i :: index <= i < |nodes| ==> key < nodes[i].mapNodeKey
    ensures IsSlot(nodes, key, index) && !HasKey(nodes, key)
  {
  }

  lemma InsertedOrdered<V>(nodes: seq<MapNode<V>>, node: MapNode<V>, index: nat)
    requires Ordered(nodes) && IsSlot(nodes, node.mapNodeKey, index) && !HasKey(nodes, node.mapNodeKey)
    ensures Ordered(Inserted(nodes, index, node))
  {
    forall i | 0 <= i < |nodes|
      ensures nodes[i].mapNodeKey != node.mapNodeKey
    {
    }
    var r := Inserted(nodes, index, node);
    forall i | 0 <= i < |r|
      ensures r[i] == if i < index then nodes[i] else if i == index then node else nodes[i - 1]
    {
    }
  }

  lemma RemovedOrdered<V>(nodes: seq<MapNode<V>>, index: nat)
    requires Ordered(nodes) && index < |nodes|
    ensures Ordered(Removed(nodes, index))
  {
  }

  class OrderedList<V(0)> {
    const orderedList: List<MapNode<V>>

    ghost predicate Valid()
      reads orderedList, orderedList.listArray
    {
      orderedList.Valid() && Ordered(orderedList.Contents())
    }

    ghost function Nodes(): seq<MapNode<V>>
      reads orderedList, orderedList.listArray
      requires orderedList.Valid()
    {
      orderedList.Contents()
    }

    constructor ()
      ensures Valid() && Nodes() == [] && fresh(orderedList) && fresh(orderedList.listArray)
    {
      orderedList := new List<MapNode<V>>();
    }

    // binary search: the index of the key, or the place where it would have to be inserted
    method GetIndexFromKey(key: int) returns (index: nat, objectExists: bool)
      requires Valid()
      ensures IsSlot(Nodes(), key, index)
      ensures objectExists <==> HasKey(Nodes(), key)
      ensures objectExists ==> index < |Nodes()| && Nodes()[index].mapNodeKey == key
      ensures index <= |Nodes()| && forall i :: 0 <= i < index ==> Nodes()[i].mapNodeKey < key
      ensures !objectExists ==> forall i :: index <= i < |Nodes()| ==> key < Nodes()[i].mapNodeKey
    {
      hide HasKey, IsSlot;
      if orderedList.listSize == 0 {
        NoHit(Nodes(), key, 0);
        return 0, false;
      }
      var upperBound, lowerBound: int := orderedList.listSize - 1, 0;
      var middle: int := orderedList.listSize / 2;
      while true
        invariant 0 <= lowerBound <= middle <= upperBound < |Nodes()|
        invariant forall i :: 0 <= i < lowerBound ==> Nodes()[i].mapNodeKey < key
        invariant forall i :: upperBound < i < |Nodes()| ==> key < Nodes()[i].mapNodeKey
        decreases upperBound - lowerBound
      {
        var node := orderedList.At(middle);
        var res := Compare(key, node.mapNodeKey);
        if res == 0 {
          SlotOfHit(Nodes(), key, middle);
          return middle, true;
        } else if res < 0 {
          upperBound := middle - 1;
        } else {
          lowerBound := middle + 1;
        }
        middle := lowerBound + Half(upperBound - lowerBound);
        if lowerBound > upperBound {
          NoHit(Nodes(), key, lowerBound);
          return lowerBound, false;
        }
      }
    }

    // a key that is there already is refused
    method Insert(key: int, data: MapNode<V>) returns (index: int)
      requires Valid() && data.mapNodeKey == key
      modifies orderedList, orderedList.listArray
      ensures Valid() && (orderedList.listArray == old(orderedList.listArray) || fresh(orderedList.listArray))
      ensures HasKey(old(Nodes()), key) ==> index == -1 && Nodes() == old(Nodes())
      ensures !HasKey(old(Nodes()), key) ==>
                0 <= index && IsSlot(old(Nodes()), key, index) && Nodes() == Inserted(old(Nodes()), index, data)
    {
      hide HasKey, IsSlot;
      var at, objectExists := GetIndexFromKey(key);
      if objectExists {
        return -1;
      }
      ghost var was := Nodes();
      SlotInside(was, key, at);
      InsertedOrdered(was, data, at);
      if at >= orderedList.listSize {
        orderedList.Insert(data);
        index := orderedList.listSize - 1;
      } else {
        orderedList.InsertAt(data, at);
        index := at;
      }
    }

    method Remove(key: int) returns (index: nat)
      requires Valid()
      modifies orderedList, orderedList.listArray
      ensures Valid() && orderedList.listArray == old(orderedList.listArray)
      ensures !HasKey(old(Nodes()), key) ==> index == 0 && Nodes() == old(Nodes())
      ensures HasKey(old(Nodes()), key) ==>
                index < |old(Nodes())| && old(Nodes())[index].mapNodeKey == key &&
                  Nodes() == Removed(old(Nodes()), index)
    {
      hide HasKey, IsSlot;
      var at, objectExists := GetIndexFromKey(key);
      if !objectExists {
        return 0;
      }
      RemoveAtIndex(at);
      index := at;
    }

    method RemoveAtIndex(index: nat)
      requires Valid()
      modifies orderedList, orderedList.listArray
      ensures Valid() && orderedList.listArray == old(orderedList.listArray)
      ensures Nodes() == if index < |old(Nodes())| then Removed(old(Nodes()), index) else old(Nodes())
    {
      if index < |Nodes()| {
        RemovedOrdered(Nodes(), index);
      }
      orderedList.RemoveAtIndex(index);
    }
  }

  // division towards zero, by two
  function Half(n: int): int {
    if n >= 0 then n / 2 else -((-n) / 2)
  }

  lemma SlotInside<V>(nodes: seq<MapNode<V>>, key: int, index: nat)
    requires IsSlot(nodes, key, index)
    ensures index <= |nodes|
    ensures index == |nodes| ==> forall x: MapNode<V> {:trigger nodes + [x]} :: Inserted(nodes, index, x) == nodes + [x]
  {
  }
}
