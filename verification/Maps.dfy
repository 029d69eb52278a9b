/** The map: an ordered list of keys with their data, and a cache of the last search. */
module Maps {
  import opened Sequences
  import opened Lists
  import opened OrderedLists

  // the finite map a list of entries stands for
  function AsMap<V>(nodes: seq<MapNode<V>>): (m: map<int, V>)
    requires Ordered(nodes)
  {
    map i | 0 <= i < |nodes| :: nodes[i].mapNodeKey := nodes[i].mapNodeData
  }

  lemma Entry<V>(nodes: seq<MapNode<V>>, i: nat)
    requires Ordered(nodes) && i < |nodes|
    ensures nodes[i].mapNodeKey in AsMap(nodes) && AsMap(nodes)[nodes[i].mapNodeKey] == nodes[i].mapNodeData
  {
  }

  lemma KeysOfMap<V>(nodes: seq<MapNode<V>>, key: int)
    requires Ordered(nodes)
    ensures key in AsMap(nodes) <==> HasKey(nodes, key)
  {
    if HasKey(nodes, key) {
      var i :| 0 <= i < |nodes| && nodes[i].mapNodeKey == key;
      Entry(nodes, i);
    }
  }

  // a map with the entries of the list and no other keys is the one it stands for
  lemma SameMap<V>(nodes: seq<MapNode<V>>, m: map<int, V>)
    requires Ordered(nodes)
    requires forall i :: 0 <= i < |nodes| ==> nodes[i].mapNodeKey in m && m[nodes[i].mapNodeKey] == nodes[i].mapNodeData
    requires forall key :: key in m ==> HasKey(nodes, key)
    ensures AsMap(nodes) == m
  {
    forall key | key in m
      ensures key in AsMap(nodes) && AsMap(nodes)[key] == m[key]
    {
      var i :| 0 <= i < |nodes| && nodes[i].mapNodeKey == key;
      Entry(nodes, i);
    }
  }

  lemma InsertedMap<V>(nodes: seq<MapNode<V>>, k: nat, node: MapNode<V>)
    requires k <= |nodes| && Ordered(nodes) && Ordered(Inserted(nodes, k, node))
    ensures AsMap(Inserted(nodes, k, node)) == AsMap(nodes)[node.mapNodeKey := node.mapNodeData]
  {
    hide AsMap;
    var r, m := Inserted(nodes, k, node), AsMap(nodes)[node.mapNodeKey := node.mapNodeData];
    assert r[k] == node;
    forall i | 0 <= i < |r|
      ensures r[i].mapNodeKey in m && m[r[i].mapNodeKey] == r[i].mapNodeData
    {
      if i != k {
        Entry(nodes, if i < k then i else i - 1);
      }
    }
    forall key | key in m
      ensures HasKey(r, key)
    {
      KeysOfMap(nodes, key);
      KeyStays(nodes, r, key, (i: nat) => if i < k then i else i + 1);
    }
    SameMap(r, m);
  }

  // every key of one list is at its place in another
  lemma KeyStays<V>(nodes: seq<MapNode<V>>, r: seq<MapNode<V>>, key: int, place: nat -> nat)
    requires forall i :: 0 <= i < |nodes| && nodes[i].mapNodeKey == key ==> place(i) < |r| && r[place(i)] == nodes[i]
    ensures HasKey(nodes, key) ==> HasKey(r, key)
  {
    if HasKey(nodes, key) {
      var i :| 0 <= i < |nodes| && nodes[i].mapNodeKey == key;
      assert r[place(i)].mapNodeKey == key;
    }
  }

  lemma RemovedMap<V>(nodes: seq<MapNode<V>>, k: nat)
    requires k < |nodes| && Ordered(nodes)
    ensures Ordered(Removed(nodes, k))
    ensures AsMap(Removed(nodes, k)) == AsMap(nodes) - {nodes[k].mapNodeKey}
  {
    hide AsMap;
    RemovedOrdered(nodes, k);
    var r, m := Removed(nodes, k), AsMap(nodes) - {nodes[k].mapNodeKey};
    forall i | 0 <= i < |r|
      ensures r[i].mapNodeKey in m && m[r[i].mapNodeKey] == r[i].mapNodeData
    {
      Entry(nodes, if i < k then i else i + 1);
    }
    forall key | key in m
      ensures HasKey(r, key)
    {
      KeysOfMap(nodes, key);
      KeyStays(nodes, r, key, (i: nat) => if i < k || i == 0 then i else i - 1);
    }
    SameMap(r, m);
  }

  lemma StoredMap<V>(nodes: seq<MapNode<V>>, k: nat, data: V)
    requires k < |nodes| && Ordered(nodes)
    ensures var r := nodes[k := MapNode(nodes[k].mapNodeKey, data)];
            Ordered(r) && AsMap(r) == AsMap(nodes)[nodes[k].mapNodeKey := data]
  {
    hide AsMap;
    var r, m := nodes[k := MapNode(nodes[k].mapNodeKey, data)], AsMap(nodes)[nodes[k].mapNodeKey := data];
    forall i | 0 <= i < |r|
      ensures r[i].mapNodeKey in m && m[r[i].mapNodeKey] == r[i].mapNodeData
    {
      Entry(nodes, i);
    }
    forall key | key in m
      ensures HasKey(r, key)
    {
      KeysOfMap(nodes, key);
      assert r[k].mapNodeKey == nodes[k].mapNodeKey;
      if HasKey(nodes, key) {
        var i :| 0 <= i < |nodes| && nodes[i].mapNodeKey == key;
        assert r[i].mapNodeKey == key;
      }
    }
    SameMap(r, m);
  }

  // the place of a key in the order of the keys
  function Rank<V>(m: map<int, V>, key: int): nat {
    |set k | k in m.Keys && k < key|
  }

  function AtRank<V>(m: map<int, V>, index: nat): set<int> {
    set k | k in m.Keys && Rank(m, k) == index
  }

  // the keys of the first n entries
  function KeysBefore<V>(nodes: seq<MapNode<V>>, n: nat): set<int>
    requires n <= |nodes|
  {
    if n == 0 then {} else KeysBefore(nodes, n - 1) + {nodes[n - 1].mapNodeKey}
  }

  predicate KeyBefore<V>(nodes: seq<MapNode<V>>, n: nat, key: int)
    requires n <= |nodes|
  {
    exists i :: 0 <= i < n && nodes[i].mapNodeKey == key
  }

  lemma {:induction false} KeysBeforeMember<V>(nodes: seq<MapNode<V>>, n: nat, key: int)
    requires n <= |nodes|
    ensures key in KeysBefore(nodes, n) <==> KeyBefore(nodes, n, key)
  {
    if n > 0 {
      KeysBeforeMember(nodes, n - 1, key);
    }
  }

  lemma KeysBeforeFacts<V>(nodes: seq<MapNode<V>>, n: nat)
    requires Ordered(nodes) && n <= |nodes|
    ensures |KeysBefore(nodes, n)| == n
    ensures forall k :: k in KeysBefore(nodes, n) <==> exists i :: 0 <= i < n && nodes[i].mapNodeKey == k
  {
    hide KeysBefore;
    KeysBeforeCount(nodes, n);
    forall k
      ensures k in KeysBefore(nodes, n) <==> exists i :: 0 <= i < n && nodes[i].mapNodeKey == k
    {
      KeysBeforeMember(nodes, n, k);
    }
  }

  lemma {:induction false} KeysBeforeCount<V>(nodes: seq<MapNode<V>>, n: nat)
    requires Ordered(nodes) && n <= |nodes|
    ensures |KeysBefore(nodes, n)| == n
  {
    if n > 0 {
      KeysBeforeCount(nodes, n - 1);
      KeysBeforeMember(nodes, n - 1, nodes[n - 1].mapNodeKey);
      OneMoreKey(KeysBefore(nodes, n - 1), nodes[n - 1].mapNodeKey);
    }
  }

  lemma OneMoreKey(keys: set<int>, key: int)
    requires key !in keys
    ensures |keys + {key}| == |keys| + 1
  {
  }

  lemma RankIsIndex<V>(nodes: seq<MapNode<V>>, index: nat)
    requires Ordered(nodes) && index < |nodes|
    ensures Rank(AsMap(nodes), nodes[index].mapNodeKey) == index
  {
    hide AsMap;
    KeysBeforeFacts(nodes, index);
    var m, key := AsMap(nodes), nodes[index].mapNodeKey;
    forall k
      ensures k in m.Keys && k < key <==> exists i :: 0 <= i < index && nodes[i].mapNodeKey == k
    {
      KeysOfMap(nodes, k);
      if exists i :: 0 <= i < index && nodes[i].mapNodeKey == k {
        var i :| 0 <= i < index && nodes[i].mapNodeKey == k;
        Entry(nodes, i);
      }
    }
    assert (set k | k in m.Keys && k < key) == KeysBefore(nodes, index);
  }

  lemma RankOfKey<V>(nodes: seq<MapNode<V>>, key: int)
    requires Ordered(nodes)
    ensures forall i :: 0 <= i < |nodes| && nodes[i].mapNodeKey == key ==> i == Rank(AsMap(nodes), key)
  {
    hide AsMap, Rank;
    forall i | 0 <= i < |nodes| && nodes[i].mapNodeKey == key
      ensures i == Rank(AsMap(nodes), key)
    {
      RankIsIndex(nodes, i);
    }
  }

  // the entry at an index holds the one key of that rank, and past the end there is none
  lemma AtRankIsEntry<V>(nodes: seq<MapNode<V>>, index: nat)
    requires Ordered(nodes)
    ensures AtRank(AsMap(nodes), index) == if index < |nodes| then {nodes[index].mapNodeKey} else {}
  {
    hide AsMap, Rank;
    forall k | k in AsMap(nodes)
      ensures Rank(AsMap(nodes), k) == index <==> index < |nodes| && k == nodes[index].mapNodeKey
    {
      KeysOfMap(nodes, k);
      var i :| 0 <= i < |nodes| && nodes[i].mapNodeKey == k;
      RankIsIndex(nodes, i);
    }
    if index < |nodes| {
      Entry(nodes, index);
    }
  }

  class Map<V(0)> {
    const mapNodeList: OrderedList<V>
    var lastSearchIndex: int
    var lastSearchKey: int
    var lastSearchIndexValid: bool

    ghost predicate Stored()
      reads mapNodeList.orderedList, mapNodeList.orderedList.listArray
    {
      mapNodeList.Valid()
    }

    // a valid cache points at the entry that holds its key
    ghost predicate CacheOk()
      reads this, mapNodeList.orderedList, mapNodeList.orderedList.listArray
      requires Stored()
    {
      lastSearchIndexValid ==>
        && 0 <= lastSearchIndex < |mapNodeList.Nodes()|
        && mapNodeList.Nodes()[lastSearchIndex].mapNodeKey == lastSearchKey
    }

    ghost predicate Valid()
      reads this, mapNodeList.orderedList, mapNodeList.orderedList.listArray
    {
      Stored() && CacheOk()
    }

    ghost function Contents(): map<int, V>
      reads mapNodeList.orderedList, mapNodeList.orderedList.listArray
      requires Stored()
    {
      AsMap(mapNodeList.Nodes())
    }

    ghost function Footprint(): set<object>
      reads this, mapNodeList.orderedList
    {
      {this, mapNodeList.orderedList, mapNodeList.orderedList.listArray}
    }

    constructor ()
      ensures Valid() && Contents() == map[] && fresh(Footprint())
    {
      mapNodeList := new OrderedList<V>();
      lastSearchIndexValid := false;
    }

    method SaveLastSearch(key: int, index: int)
      modifies this
      ensures lastSearchIndex == index && lastSearchKey == key && lastSearchIndexValid
    {
      lastSearchIndex := index;
      lastSearchKey := key;
      lastSearchIndexValid := true;
    }

    predicate HasSavedSearchResult(key: int)
      reads this
    {
      lastSearchIndexValid && Compare(key, lastSearchKey) == 0
    }

    // the index of a key, from the cache or by search, which is then cached
    method GetIndexAtKey(key: int) returns (index: nat)
      requires Valid() && key in Contents()
      modifies this
      ensures Valid() && Contents() == old(Contents()) && HasSavedSearchResult(key)
      ensures index < |mapNodeList.Nodes()| && mapNodeList.Nodes()[index].mapNodeKey == key
      ensures index == Rank(Contents(), key)
    {
      hide AsMap, Rank;
      ghost var nodes := mapNodeList.Nodes();
      RankOfKey(nodes, key);
      if HasSavedSearchResult(key) {
        return lastSearchIndex;
      }
      KeysOfMap(mapNodeList.Nodes(), key);
      var at, objectExists := mapNodeList.GetIndexFromKey(key);
      SaveLastSearch(key, at);
      index := at;
    }

    method Get(key: int) returns (data: V)
      requires Valid() && key in Contents()
      modifies this
      ensures Valid() && Contents() == old(Contents()) && data == Contents()[key]
    {
      hide AsMap;
      var index := GetIndexAtKey(key);
      Entry(mapNodeList.Nodes(), index);
      var node := mapNodeList.orderedList.At(index);
      data := node.mapNodeData;
    }

    method Has(key: int) returns (objectExists: bool)
      requires Valid()
      modifies this
      ensures Valid() && Contents() == old(Contents()) && (objectExists <==> key in Contents())
    {
      hide AsMap;
      if HasSavedSearchResult(key) {
        Entry(mapNodeList.Nodes(), lastSearchIndex);
        return true;
      }
      KeysOfMap(mapNodeList.Nodes(), key);
      var index;
      index, objectExists := mapNodeList.GetIndexFromKey(key);
      if objectExists {
        SaveLastSearch(key, index);
      }
    }

    // overwrites the data of an entry
    method StoreAt(index: nat, data: V)
      requires Valid() && index < |mapNodeList.Nodes()|
      modifies mapNodeList.orderedList.listArray
      ensures Valid() && Contents() == old(Contents())[old(mapNodeList.Nodes())[index].mapNodeKey := data]
    {
      hide AsMap, Ordered;
      StoredMap(mapNodeList.Nodes(), index, data);
      var node := mapNodeList.orderedList.At(index);
      mapNodeList.orderedList.Store(index, MapNode(node.mapNodeKey, data));
    }

    method Set(key: int, data: V)
      requires Valid()
      modifies Footprint()
      ensures Valid() && Contents() == old(Contents())[key := data] && fresh(Footprint() - old(Footprint()))
    {
      hide AsMap, Ordered, Inserted, IsSlot, HasKey;
      if HasSavedSearchResult(key) {
        StoreAt(lastSearchIndex, data);
        return;
      }
      KeysOfMap(mapNodeList.Nodes(), key);
      var index, objectExists := mapNodeList.GetIndexFromKey(key);
      if objectExists {
        SaveLastSearch(key, index);
        StoreAt(index, data);
      } else {
        SetNew(key, data);
      }
    }

    method SetExisting(key: int, data: V)
      requires Valid() && key in Contents()
      modifies Footprint()
      ensures Valid() && Contents() == old(Contents())[key := data] && fresh(Footprint() - old(Footprint()))
    {
      hide AsMap, Ordered;
      var index := GetIndexAtKey(key);
      StoreAt(index, data);
    }

    // A new key is added and cached. A key that is there is refused by the list, but the refusal is
    // cached as if it were an index: the cache is right exactly when the key is new.
    method SetNew(key: int, data: V)
      requires Valid()
      modifies Footprint()
      ensures Stored() && fresh(Footprint() - old(Footprint()))
      ensures Contents() == if key in old(Contents()) then old(Contents()) else old(Contents())[key := data]
      ensures Valid() <==> key !in old(Contents())
    {
      hide AsMap, Ordered, IsSlot, HasKey;
      ghost var was := mapNodeList.Nodes();
      KeysOfMap(was, key);
      var index := mapNodeList.Insert(key, MapNode(key, data));
      if index >= 0 {
        SlotBound(was, key, index);
        InsertedMap(was, index, MapNode(key, data));
      }
      SaveLastSearch(key, index);
    }

    lemma SlotBound(nodes: seq<MapNode<V>>, key: int, index: nat)
      requires IsSlot(nodes, key, index)
      ensures index <= |nodes|
    {
    }

    method RemoveAtIndex(index: nat)
      requires Valid()
      modifies Footprint()
      ensures Valid() && Footprint() == old(Footprint())
      ensures var was := old(mapNodeList.Nodes());
              Contents() == if index < |was| then old(Contents()) - {was[index].mapNodeKey} else old(Contents())
      ensures Contents() == old(Contents()) - AtRank(old(Contents()), index)
    {
      hide AsMap, Ordered, Removed, AtRank;
      AtRankIsEntry(mapNodeList.Nodes(), index);
      if index < |mapNodeList.Nodes()| {
        RemovedMap(mapNodeList.Nodes(), index);
      }
      mapNodeList.RemoveAtIndex(index);
      lastSearchIndexValid := false;
    }

    method Pop(key: int) returns (data: V)
      requires Valid() && key in Contents()
      modifies Footprint()
      ensures Valid() && data == old(Contents())[key] && Contents() == old(Contents()) - {key} &&
              Footprint() == old(Footprint())
    {
      hide AsMap, Ordered;
      var index;
      if HasSavedSearchResult(key) {
        index := lastSearchIndex;
      } else {
        KeysOfMap(mapNodeList.Nodes(), key);
        var objectExists;
        index, objectExists := mapNodeList.GetIndexFromKey(key);
      }
      Entry(mapNodeList.Nodes(), index);
      var node := mapNodeList.orderedList.At(index);
      data := node.mapNodeData;
      RemoveAtIndex(index);
    }

    method Delete(key: int) returns (deleted: bool)
      requires Valid()
      modifies Footprint()
      ensures Valid() && (deleted <==> key in old(Contents())) && Contents() == old(Contents()) - {key} &&
              Footprint() == old(Footprint())
    {
      hide AsMap, Ordered;
      KeysOfMap(mapNodeList.Nodes(), key);
      if HasSavedSearchResult(key) {
        Entry(mapNodeList.Nodes(), lastSearchIndex);
        RemoveAtIndex(lastSearchIndex);
        return true;
      }
      var index, objectExists := mapNodeList.GetIndexFromKey(key);
      if objectExists {
        RemoveAtIndex(index);
        return true;
      }
      return false;
    }

    method Clear()
      requires Valid()
      modifies Footprint()
      ensures Valid() && Contents() == map[] && fresh(Footprint() - old(Footprint()))
    {
      lastSearchIndexValid := false;
      mapNodeList.orderedList.Clear();
    }

    method Perform(op: Operation<V>) returns (answer: Answer<V>)
      requires Valid() && Allowed(Contents(), op)
      modifies Footprint()
      ensures Valid() && fresh(Footprint() - old(Footprint()))
      ensures answer == PlainAnswer(old(Contents()), op) && Contents() == PlainStep(old(Contents()), op)
    {
      hide AsMap, Ordered;
      answer := Done;
      match op {
        case Set(key, data) => Set(key, data);
        case SetExisting(key, data) => SetExisting(key, data);
        case SetNew(key, data) => SetNew(key, data);
        case Get(key) =>
          var data := Get(key);
          answer := Data(data);
        case Pop(key) =>
          var data := Pop(key);
          answer := Data(data);
        case Has(key) =>
          var found := Has(key);
          answer := Truth(found);
        case Delete(key) =>
          var deleted := Delete(key);
          answer := Truth(deleted);
        case GetIndexAtKey(key) =>
          var index := GetIndexAtKey(key);
          answer := Index(index);
        case RemoveAtIndex(index) => RemoveAtIndex(index);
        case Clear => Clear();
      }
    }

    // Over any run of operations the array with its cache answers as a plain finite map does.
    method Run(operations: seq<Operation<V>>) returns (answers: seq<Answer<V>>)
      requires Valid() && AllowedRun(Contents(), operations)
      modifies Footprint()
      ensures Valid() && fresh(Footprint() - old(Footprint()))
      ensures answers == PlainAnswers(old(Contents()), operations) &&
              Contents() == PlainRun(old(Contents()), operations)
    {
      hide AsMap, Ordered, PlainStep, PlainAnswer;
      answers := [];
      assert operations[0..] == operations;
      for i := 0 to |operations|
        invariant Valid() && fresh(Footprint() - old(Footprint()))
        invariant AllowedRun(Contents(), operations[i..])
        invariant PlainRun(Contents(), operations[i..]) == PlainRun(old(Contents()), operations)
        invariant answers + PlainAnswers(Contents(), operations[i..]) == PlainAnswers(old(Contents()), operations)
      {
        RunStep(Contents(), operations[i..], answers);
        assert operations[i..][1..] == operations[i + 1..];
        var answer := Perform(operations[i]);
        answers := answers + [answer];
      }
    }
  }

  datatype Operation<V> =
    | Set(key: int, data: V) | SetExisting(key: int, data: V) | SetNew(key: int, data: V)
    | Get(key: int) | Pop(key: int) | Has(key: int) | Delete(key: int)
    | GetIndexAtKey(key: int) | RemoveAtIndex(index: nat) | Clear

  datatype Answer<V> = Done | Data(data: V) | Truth(holds: bool) | Index(index: nat)

  // the operations that demand a key demand it, and the one that adds demands a new one
  predicate Allowed<V>(m: map<int, V>, op: Operation<V>) {
    match op
    case SetExisting(key, _) => key in m
    case Get(key) => key in m
    case Pop(key) => key in m
    case GetIndexAtKey(key) => key in m
    case SetNew(key, _) => key !in m
    case _ => true
  }

  function PlainStep<V>(m: map<int, V>, op: Operation<V>): map<int, V> {
    match op
    case Set(key, data) => m[key := data]
    case SetExisting(key, data) => m[key := data]
    case SetNew(key, data) => m[key := data]
    case Pop(key) => m - {key}
    case Delete(key) => m - {key}
    case RemoveAtIndex(index) => m - AtRank(m, index)
    case Clear => map[]
    case _ => m
  }

  function PlainAnswer<V>(m: map<int, V>, op: Operation<V>): Answer<V>
    requires Allowed(m, op)
  {
    match op
    case Get(key) => Data(m[key])
    case Pop(key) => Data(m[key])
    case Has(key) => Truth(key in m)
    case Delete(key) => Truth(key in m)
    case GetIndexAtKey(key) => Index(Rank(m, key))
    case _ => Done
  }

  predicate AllowedRun<V>(m: map<int, V>, operations: seq<Operation<V>>)
    decreases |operations|
  {
    operations == [] || (Allowed(m, operations[0]) && AllowedRun(PlainStep(m, operations[0]), operations[1..]))
  }

  function PlainRun<V>(m: map<int, V>, operations: seq<Operation<V>>): map<int, V>
    decreases |operations|
  {
    if operations == [] then m else PlainRun(PlainStep(m, operations[0]), operations[1..])
  }

  function PlainAnswers<V>(m: map<int, V>, operations: seq<Operation<V>>): seq<Answer<V>>
    requires AllowedRun(m, operations)
    decreases |operations|
  {
    if operations == [] then [] else
      [PlainAnswer(m, operations[0])] + PlainAnswers(PlainStep(m, operations[0]), operations[1..])
  }

  lemma RunStep<V>(m: map<int, V>, operations: seq<Operation<V>>, answers: seq<Answer<V>>)
    requires operations != [] && AllowedRun(m, operations)
    ensures var rest := PlainAnswers(PlainStep(m, operations[0]), operations[1..]);
            answers + PlainAnswers(m, operations) == answers + [PlainAnswer(m, operations[0])] + rest
    ensures PlainRun(m, operations) == PlainRun(PlainStep(m, operations[0]), operations[1..])
  {
    hide PlainStep, PlainAnswer;
    var first, rest := [PlainAnswer(m, operations[0])], PlainAnswers(PlainStep(m, operations[0]), operations[1..]);
    assert PlainAnswers(m, operations) == first + rest;
    AppendAssoc(answers, first, rest);
  }
}
