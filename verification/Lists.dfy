/** The array list: doubling growth, and elements shifted to make and close gaps. */
module Lists {
  import opened Sequences

  // memcpy and memmove: all elements are read before any is written
  method Move<T>(from: array<T>, at: nat, count: nat, to: array<T>, start: nat)
    requires at + count <= from.Length && start + count <= to.Length
    modifies to
    ensures to[..start] == old(to[..start]) && to[start + count..] == old(to[start + count..])
    ensures to[start..start + count] == old(from[at..at + count])
  {
    forall i | 0 <= i < count {
      to[start + i] := from[at + i];
    }
  }

  function Filled<T>(s: seq<T>, n: nat, x: T): (r: seq<T>)
    ensures |r| == if |s| < n then n else |s|
    ensures forall i :: 0 <= i < |r| ==> r[i] == if i < |s| then s[i] else x
    decreases n - |s|
  {
    if |s| < n then Filled(s + [x], n, x) else s
  }

  // an array whose part from k to n has been shifted by one place, and x put at k
  lemma GapFilled<T>(now: seq<T>, was: seq<T>, k: nat, n: nat, x: T)
    requires k <= n < |now| == |was|
    requires now[..k] == was[..k] && now[k] == x && now[k + 1..n + 1] == was[k..n]
    ensures now[..n + 1] == Inserted(was[..n], k, x)
  {
    assert now[..n + 1] == now[..k] + [now[k]] + now[k + 1..n + 1];
  }

  lemma GapClosed<T>(now: seq<T>, was: seq<T>, k: nat, n: nat)
    requires k < n <= |now| == |was|
    requires now[..k] == was[..k] && now[k..n - 1] == was[k + 1..n]
    ensures now[..n - 1] == Removed(was[..n], k)
  {
    assert now[..n - 1] == now[..k] + now[k..n - 1];
  }

  class List<T(0)> {
    var listArray: array<T>
    var listSize: nat
    var allocationSize: nat

    ghost predicate Valid()
      reads this
    {
      listSize <= allocationSize == listArray.Length
    }

    ghost function Contents(): seq<T>
      reads this, listArray
      requires Valid()
    {
      listArray[..listSize]
    }

    constructor ()
      ensures Valid() && Contents() == [] && fresh(listArray)
    {
      allocationSize, listSize := 0, 0;
      listArray := new T[0];
    }

    method At(position: nat) returns (x: T)
      requires Valid() && position < listSize
      ensures x == Contents()[position]
    {
      x := listArray[position];
    }

    // operator[] as the target of an assignment
    method Store(position: nat, x: T)
      requires Valid() && position < listSize
      modifies listArray
      ensures Valid() && Contents() == old(Contents())[position := x]
    {
      listArray[position] := x;
    }

    // to a new array of the given size
    method Reallocate(newSize: nat)
      requires Valid() && listSize <= newSize
      modifies this`listArray, this`allocationSize
      ensures Valid() && fresh(listArray) && allocationSize == newSize && Contents() == old(Contents())
    {
      var newArray := new T[newSize];
      Move(listArray, 0, listSize, newArray, 0);
      assert newArray[..listSize] == newArray[0..listSize];
      listArray := newArray;
      allocationSize := newSize;
    }

    method MakeRoom()
      requires Valid()
      modifies this`listArray, this`allocationSize
      ensures Valid() && listSize < allocationSize && Contents() == old(Contents())
      ensures listArray == old(listArray) || fresh(listArray)
      ensures allocationSize == if old(listSize < allocationSize) then old(allocationSize)
                                else if old(allocationSize) == 0 then 16 else 2 * old(allocationSize)
    {
      if listSize == allocationSize {
        Reallocate(if allocationSize == 0 then 16 else 2 * allocationSize);
      }
    }

    method InsertAt(input: T, position: nat)
      requires Valid() && position <= listSize
      modifies this, listArray
      ensures Valid() && (listArray == old(listArray) || fresh(listArray))
      ensures Contents() == Inserted(old(Contents()), position, input)
    {
      hide Inserted;
      MakeRoom();
      ghost var was := listArray[..];
      Move(listArray, position, listSize - position, listArray, position + 1);
      assert listArray[position + 1..listSize + 1] == was[position..listSize];
      listArray[position] := input;
      GapFilled(listArray[..], was, position, listSize, input);
      listSize := listSize + 1;
    }

    method Insert(input: T)
      requires Valid()
      modifies this, listArray
      ensures Valid() && (listArray == old(listArray) || fresh(listArray))
      ensures Contents() == old(Contents()) + [input]
    {
      MakeRoom();
      listArray[listSize] := input;
      listSize := listSize + 1;
    }

    // beyond the end the list grows up to the position, the gap being filled
    method Replace(input: T, filler: T, position: nat)
      requires Valid()
      modifies this, listArray
      ensures Valid() && (listArray == old(listArray) || fresh(listArray))
      ensures Contents() == if position < old(listSize) then old(Contents())[position := input]
                            else Filled(old(Contents()), position, filler) + [input]
    {
      if listSize > 0 && position < listSize {
        listArray[position] := input;
      } else {
        if position >= allocationSize {
          Reallocate(position + 1);
        }
        Fill(filler, position);
        listArray[listSize] := input;
        listSize := listSize + 1;
      }
    }

    method Fill(filler: T, position: nat)
      requires Valid() && listSize <= position < allocationSize
      modifies this`listSize, listArray
      ensures Valid() && listSize == position && Contents() == Filled(old(Contents()), position, filler)
    {
      while listSize < position
        invariant Valid() && listSize <= position < allocationSize
        invariant Filled(Contents(), position, filler) == Filled(old(Contents()), position, filler)
      {
        ghost var before := Contents();
        listArray[listSize] := filler;
        listSize := listSize + 1;
        assert Contents() == before + [filler];
      }
    }

    method RemoveAtIndex(position: nat)
      requires Valid()
      modifies this`listSize, listArray
      ensures Valid()
      ensures Contents() == if position < |old(Contents())| then Removed(old(Contents()), position) else old(Contents())
    {
      hide Removed;
      if position < listSize {
        ghost var was := listArray[..];
        Move(listArray, position + 1, listSize - 1 - position, listArray, position);
        assert listArray[position..listSize - 1] == was[position + 1..listSize];
        GapClosed(listArray[..], was, position, listSize);
        Del(1);
      }
    }

    method Del(num: nat)
      requires Valid() && num <= listSize
      modifies this`listSize
      ensures Valid() && listSize == old(listSize) - num && Contents() == old(Contents())[..listSize]
    {
      listSize := listSize - num;
    }

    method Clear()
      requires Valid()
      modifies this
      ensures Valid() && Contents() == [] && (listArray == old(listArray) || fresh(listArray))
    {
      if allocationSize == 0 {
        return;
      }
      if allocationSize > 512 {
        listArray := new T[0];
        allocationSize := 0;
      }
      listSize := 0;
    }
  }
}
