/** The queue kept in a ring buffer that doubles when it is full. */
module Queues {
  import opened Binary

  // the elements between head and tail, around the end of the buffer
  function Window<T>(a: seq<T>, head: nat, tail: nat): seq<T>
    requires head <= |a| && tail <= |a|
  {
    if head <= tail then a[head..tail] else a[head..] + a[..tail]
  }

  // the same elements when the buffer is full and head and tail have met
  function FullWindow<T>(a: seq<T>, head: nat): (r: seq<T>)
    requires head <= |a|
    ensures |r| == |a|
  {
    a[head..] + a[..head]
  }

  function Around(i: nat, n: nat): (j: nat)
    requires i < 2 * n
    ensures j < n
  {
    if i < n then i else i - n
  }

  lemma RemainderIsAround(i: nat, n: nat)
    requires i < 2 * n
    ensures i % n == Around(i, n)
  {
    if i >= n {
      assert i == 1 * n + (i - n);
    }
  }

  lemma WindowAt<T>(a: seq<T>, head: nat, tail: nat, k: nat)
    requires head < |a| && tail < |a| && k < |Window(a, head, tail)|
    ensures head + k < 2 * |a| && Window(a, head, tail)[k] == a[Around(head + k, |a|)]
  {
  }

  lemma FullWindowAt<T>(a: seq<T>, head: nat, k: nat)
    requires head < |a| && k < |a|
    ensures head + k < 2 * |a| && FullWindow(a, head)[k] == a[Around(head + k, |a|)]
  {
  }

  lemma Pushed<T>(a: seq<T>, head: nat, tail: nat, x: T)
    requires head < |a| && tail < |a|
    ensures var b, t := a[tail := x], if tail + 1 == |a| then 0 else tail + 1;
            (if t == head then FullWindow(b, head) else Window(b, head, t)) == Window(a, head, tail) + [x]
  {
  }

  // one more element fills the buffer exactly when head and tail then meet, at either end
  lemma LastPlace<T>(a: seq<T>, head: nat, tail: nat)
    requires head < |a| && tail < |a|
    ensures |Window(a, head, tail)| + 1 == |a| <==> head == if tail + 1 == |a| then 0 else tail + 1
    ensures |Window(a, head, tail)| + 1 == |a| <==> tail == if head == 0 then |a| - 1 else head - 1
  {
  }

  // what a queue becomes when an element is put at an index; behind its end it is the next cell that comes in
  function PutAt<T>(s: seq<T>, index: nat, x: T, next: T): seq<T> {
    if index <= |s| then s[..index] + [x] + s[index..] else s + [next]
  }

  lemma PutAtIs<T>(s: seq<T>, index: nat, x: T, next: T)
    ensures PutAt(s, index, x, next) == if index <= |s| then s[..index] + [x] + s[index..] else s + [next]
  {
  }

  // the cells from head on, so many of them, hold what was one place further
  function MovedUp<T>(a: seq<T>, head: nat, count: nat): (b: seq<T>)
    requires head < |a| && (count > 0 ==> head + count < |a|)
    ensures |b| == |a|
  {
    a[..head] + (if count == 0 then [] else a[head + 1..head + count + 1]) + a[head + count..]
  }

  lemma PutCell<T>(a: seq<T>, head: nat, index: nat, x: T, i: nat)
    requires head + index < |a| && i < |a|
    ensures MovedUp(a, head, index)[head + index := x][i] ==
            if head <= i < head + index then a[i + 1] else if i == head + index then x else a[i]
  {
  }

  lemma PutInFront<T>(a: seq<T>, head: nat, tail: nat, x: T)
    requires head < |a| && tail < |a|
    ensures var h := if head == 0 then |a| - 1 else head - 1;
            (if tail == h then FullWindow(a[h := x], h) else Window(a[h := x], h, tail)) == [x] + Window(a, head, tail)
  {
  }

  // the elements run up to a tail behind the head
  lemma PutStraight<T>(a: seq<T>, head: nat, tail: nat, index: nat, x: T)
    requires head < tail < |a| && index > 0 && head + index < |a|
    ensures MovedUp(a, head, index)[head + index := x][head..tail] == PutAt(a[head + 1..tail], index, x, a[tail])
  {
    var b := MovedUp(a, head, index)[head + index := x];
    forall i | head <= i < tail
      ensures b[i] == PutAt(a[head + 1..tail], index, x, a[tail])[i - head]
    {
      PutCell(a, head, index, x, i);
    }
    assert b[head..tail] == PutAt(a[head + 1..tail], index, x, a[tail]);
  }

  // the elements run around the end
  lemma PutAround<T>(a: seq<T>, head: nat, tail: nat, index: nat, x: T)
    requires tail <= head < |a| && index > 0 && head + index < |a|
    ensures var b := MovedUp(a, head, index)[head + index := x];
            b[head..] + b[..tail] == PutAt(a[head + 1..] + a[..tail], index, x, a[tail])
  {
    var b, w := MovedUp(a, head, index)[head + index := x], a[head + 1..] + a[..tail];
    forall i | head <= i < |a|
      ensures b[i] == PutAt(w, index, x, a[tail])[i - head]
    {
      PutCell(a, head, index, x, i);
    }
    forall i | 0 <= i < tail
      ensures b[i] == PutAt(w, index, x, a[tail])[|a| - head + i]
    {
      PutCell(a, head, index, x, i);
    }
    assert b[head..] + b[..tail] == PutAt(w, index, x, a[tail]);
  }

  lemma PushedAtHead<T>(a: seq<T>, head: nat, tail: nat, index: nat, x: T)
    requires head < |a| && tail < |a| && (index > 0 ==> 0 < head && head + index <= |a|)
    ensures var h := if head == 0 then |a| - 1 else head - 1;
            var b := MovedUp(a, h, index)[h + index := x];
            (if tail == h then FullWindow(b, h) else Window(b, h, tail)) ==
              PutAt(Window(a, head, tail), index, x, a[tail])
  {
    hide MovedUp, PutAt;
    if index == 0 {
      NothingMoved(a, if head == 0 then |a| - 1 else head - 1, Window(a, head, tail), x, a[tail]);
      PutInFront(a, head, tail, x);
    } else if head <= tail {
      PutStraight(a, head - 1, tail, index, x);
    } else {
      PutAround(a, head - 1, tail, index, x);
    }
  }

  lemma NothingMoved<T>(a: seq<T>, head: nat, s: seq<T>, x: T, next: T)
    requires head < |a|
    ensures MovedUp(a, head, 0) == a && PutAt(s, 0, x, next) == [x] + s
  {
  }

  lemma MovedOneMore<T>(a: seq<T>, head: nat, count: nat)
    requires head + count + 1 < |a|
    ensures MovedUp(a, head, count)[head + count + 1] == a[head + count + 1]
    ensures MovedUp(a, head, count)[head + count := a[head + count + 1]] == MovedUp(a, head, count + 1)
  {
  }

  lemma AroundNext(i: nat, n: nat)
    requires i + 1 < 2 * n
    ensures Around(i + 1, n) == (Around(i, n) + 1) % n
    ensures Around(i + 1, n) == if Around(i, n) + 1 == n then 0 else Around(i, n) + 1
  {
    RemainderIsAround(Around(i, n) + 1, n);
  }

  function RingAt<T>(a: seq<T>, head: nat, k: nat): (x: T)
    requires head + k < 2 * |a|
  {
    a[Around(head + k, |a|)]
  }

  // the ring holds was, except that its elements from p on have been moved one place forward, up to the one at j
  ghost predicate Shifted<T>(a: seq<T>, head: nat, was: seq<T>, p: nat, j: nat) {
    && |was| < |a| && head < |a|
    && forall k: nat {:trigger RingAt(a, head, k)} :: k < |was| ==>
         RingAt(a, head, k) == if p <= k < j && k + 1 < |was| then was[k + 1] else was[k]
  }

  lemma ShiftStarts<T>(a: seq<T>, head: nat, tail: nat, p: nat)
    requires head < |a| && tail < |a|
    ensures Shifted(a, head, Window(a, head, tail), p, p)
  {
    forall k: nat | k < |Window(a, head, tail)|
      ensures RingAt(a, head, k) == Window(a, head, tail)[k]
    {
      WindowAt(a, head, tail, k);
    }
  }

  lemma ShiftStep<T>(a: seq<T>, head: nat, was: seq<T>, p: nat, j: nat)
    requires Shifted(a, head, was, p, j) && p <= j && j + 1 < |was|
    ensures Shifted(a[Around(head + j, |a|) := a[Around(head + j + 1, |a|)]], head, was, p, j + 1)
  {
    var b := a[Around(head + j, |a|) := a[Around(head + j + 1, |a|)]];
    assert RingAt(a, head, j + 1) == was[j + 1];
    forall k: nat {:trigger RingAt(b, head, k)} | k < |was|
      ensures RingAt(b, head, k) == if p <= k < j + 1 && k + 1 < |was| then was[k + 1] else was[k]
    {
      var x := RingAt(a, head, k);
      assert RingAt(b, head, k) == if k == j then was[j + 1] else x;
    }
  }

  lemma ShiftEnds<T>(a: seq<T>, head: nat, was: seq<T>, p: nat, j: nat)
    requires Shifted(a, head, was, p, j) && p <= j && j + 1 == |was|
    ensures Window(a, head, Around(head + j, |a|)) == was[..p] + was[p + 1..]
  {
    var w := Window(a, head, Around(head + j, |a|));
    assert |w| == j;
    forall k: nat | k < j
      ensures w[k] == (was[..p] + was[p + 1..])[k]
    {
      WindowAt(a, head, Around(head + j, |a|), k);
      assert w[k] == RingAt(a, head, k);
    }
  }

  predicate PowerOfTwo(n: nat) {
    n == 1 || (n > 1 && n % 2 == 0 && PowerOfTwo(n / 2))
  }

  lemma PowerOfTwoMeans(n: nat)
    ensures PowerOfTwo(n) <==> exists k: nat :: n == Power2(k)
  {
    hide PowerOfTwo, Power2;
    if PowerOfTwo(n) {
      var k := Exponent(n);
    }
    forall k: nat | n == Power2(k)
      ensures PowerOfTwo(n)
    {
      PowerIsPower(k);
    }
  }

  lemma {:induction false} Exponent(n: nat) returns (k: nat)
    requires PowerOfTwo(n)
    ensures n == Power2(k)
  {
    k := 0;
    if n > 1 {
      k := Exponent(n / 2);
      k := k + 1;
    }
  }

  lemma {:induction false} PowerIsPower(k: nat)
    ensures PowerOfTwo(Power2(k))
  {
    if k > 0 {
      PowerIsPower(k - 1);
      assert 2 * Power2(k - 1) / 2 == Power2(k - 1) && 2 * Power2(k - 1) % 2 == 0;
    }
  }

  lemma AroundIs(i: nat, n: nat)
    requires i < 2 * n
    ensures Around(i, n) == if i >= n then i - n else i
  {
  }

  lemma AroundBack(i: nat, n: nat)
    requires i + 1 < 2 * n
    ensures Around(i, n) == if Around(i + 1, n) == 0 then n - 1 else Around(i + 1, n) - 1
  {
  }

  // the tail is met after as many steps as there are elements, not before
  lemma TailAt(head: nat, tail: nat, n: nat, size: nat, steps: nat)
    requires head < n && size < n && tail == Around(head + size, n) && steps <= size
    ensures head + steps < 2 * n && (Around(head + steps, n) == tail <==> steps == size)
  {
  }

  lemma Straight<T>(a: seq<T>, n: nat)
    requires n <= |a|
    ensures Window(a, 0, n) == a[0..n]
  {
  }

  // the smallest power of two above n
  method PowerAbove(n: nat) returns (p: nat)
    ensures PowerOfTwo(p) && n < p && (p == 1 || p / 2 <= n)
  {
    p := 1;
    while p <= n
      invariant PowerOfTwo(p) && (p == 1 || p / 2 <= n)
    {
      p := p * 2;
    }
  }

  class Queue<T(==, 0)> {
    var buffer: array<T>
    var head: nat
    var tail: nat
    var allocationSize: nat

    ghost predicate Valid()
      reads this
    {
      && buffer.Length == allocationSize
      && if allocationSize == 0 then head == 0 && tail == 0 else head < allocationSize && tail < allocationSize
    }

    ghost function Contents(): seq<T>
      reads this, buffer
      requires Valid()
    {
      Window(buffer[..], head, tail)
    }

    constructor ()
      ensures Valid() && Contents() == [] && fresh(buffer) && allocationSize == 16
    {
      allocationSize := 16;
      buffer := new T[16];
      head, tail := 0, 0;
    }

    function Size(): (n: nat)
      reads this, buffer
      requires Valid()
      ensures n == |Contents()|
    {
      if head <= tail then tail - head else allocationSize - head + tail
    }

    predicate IsEmpty()
      reads this, buffer
      requires Valid()
      ensures IsEmpty() <==> Contents() == []
    {
      head == tail
    }

    method Peek() returns (x: T)
      requires Valid() && Contents() != []
      ensures x == Contents()[0]
    {
      x := buffer[head];
    }

    method Pop() returns (x: T)
      requires Valid() && Contents() != []
      modifies this`head
      ensures Valid() && x == old(Contents())[0] && Contents() == old(Contents())[1..]
    {
      head := head + 1;
      if head == allocationSize {
        head := 0;
      }
      x := if head == 0 then buffer[allocationSize - 1] else buffer[head - 1];
    }

    // moves a full buffer to one of twice the size
    method Double()
      requires buffer.Length == allocationSize && head == tail < allocationSize
      modifies this
      ensures Valid() && fresh(buffer) && Contents() == old(FullWindow(buffer[..], head))
      ensures allocationSize == 2 * old(allocationSize)
    {
      hide Around, FullWindow;
      var newBuffer := new T[allocationSize * 2];
      ghost var all := FullWindow(buffer[..], head);
      for counter := 0 to allocationSize
        modifies newBuffer
        invariant forall k :: 0 <= k < counter ==> newBuffer[k] == all[k]
      {
        FullWindowAt(buffer[..], head, counter);
        RemainderIsAround(head + counter, allocationSize);
        newBuffer[counter] := buffer[(head + counter) % allocationSize];
      }
      head := 0;
      tail := allocationSize;
      allocationSize := allocationSize * 2;
      buffer := newBuffer;
      assert buffer[0..tail] == all;
    }

    method StartOver(input: T)
      requires Valid() && allocationSize == 0
      modifies this
      ensures Valid() && fresh(buffer) && Contents() == [input] && allocationSize == 16
    {
      buffer := new T[16];
      head, tail := 0, 1;
      buffer[0] := input;
      allocationSize := 16;
    }

    method Push(input: T)
      requires Valid()
      modifies this, buffer
      ensures Valid() && (buffer == old(buffer) || fresh(buffer)) && Contents() == old(Contents()) + [input]
      ensures allocationSize == if old(allocationSize) == 0 then 16
                                else if |old(Contents())| + 1 == old(allocationSize) then 2 * old(allocationSize)
                                else old(allocationSize)
    {
      hide FullWindow, Window;
      if allocationSize == 0 {
        NothingHeld();
        StartOver(input);
        return;
      }
      Pushed(buffer[..], head, tail, input);
      LastPlace(buffer[..], head, tail);
      buffer[tail] := input;
      tail := tail + 1;
      if tail == allocationSize {
        tail := 0;
      }
      if tail == head {
        Double();
      }
    }

    lemma NothingHeld()
      requires Valid() && allocationSize == 0
      ensures Contents() == []
    {
    }

    // At index 0 the element goes in front of everything. Further back the elements before it move up by
    // plain addresses, so they must not go around the end; an index behind the last element loses the new
    // one and takes in the cell at the tail.
    method PushAtHead(input: T, index: nat := 0)
      requires Valid()
      requires allocationSize > 0 && index > 0 ==> 0 < head && head + index <= allocationSize
      modifies this, buffer
      ensures Valid() && (buffer == old(buffer) || fresh(buffer))
      ensures old(allocationSize) == 0 ==> Contents() == [input]
      ensures old(allocationSize) > 0 ==>
                var was := old(Contents());
                Contents() == if index <= |was| then was[..index] + [input] + was[index..]
                              else was + [old(buffer[tail])]
      ensures allocationSize == if old(allocationSize) == 0 then 16
                                else if |old(Contents())| + 1 == old(allocationSize) then 2 * old(allocationSize)
                                else old(allocationSize)
    {
      hide FullWindow, Window, PutAt, MovedUp;
      if allocationSize == 0 {
        NothingHeld();
        StartOver(input);
        return;
      }
      ghost var elements, next := Contents(), buffer[tail];
      LastPlace(buffer[..], head, tail);
      PutAtIs(elements, index, input, next);
      PushedAtHead(buffer[..], head, tail, index, input);
      head := if head == 0 then allocationSize - 1 else head - 1;
      MoveUp(index);
      buffer[head + index] := input;
      if tail == head {
        Double();
      }
    }

    method MoveUp(index: nat)
      requires head < buffer.Length && (index > 0 ==> head + index < buffer.Length)
      modifies buffer
      ensures buffer[..] == MovedUp(old(buffer[..]), head, index)
    {
      hide MovedUp;
      ghost var was := buffer[..];
      NothingMoved(was, head, was, was[0], was[0]);
      var count := 0;
      while count < index
        modifies buffer
        invariant count <= index && buffer[..] == MovedUp(was, head, count)
      {
        MovedOneMore(was, head, count);
        buffer[head + count] := buffer[head + count + 1];
        count := count + 1;
      }
    }

    method At(position: nat) returns (x: T)
      requires Valid() && position < |Contents()|
      ensures x == Contents()[position]
    {
      x := if head + position >= allocationSize then buffer[head + position - allocationSize]
        else buffer[head + position];
    }

    method Find(q: T) returns (found: bool)
      requires Valid()
      ensures found <==> q in Contents()
    {
      hide Window, Around;
      if allocationSize == 0 {
        NothingHeld();
        return false;
      }
      var counter := head;
      ghost var k := 0;
      AtOffset(0);
      AroundIs(head, allocationSize);
      while counter != tail
        invariant k <= |Contents()| && head + k < 2 * allocationSize && counter == Around(head + k, allocationSize)
        invariant counter == tail <==> k == |Contents()|
        invariant q !in Contents()[..k]
        decreases |Contents()| - k
      {
        AtOffset(k);
        if buffer[counter] == q {
          return true;
        }
        assert Contents()[..k + 1] == Contents()[..k] + [Contents()[k]];
        AtOffset(k + 1);
        AroundNext(head + k, allocationSize);
        counter := (counter + 1) % allocationSize;
        k := k + 1;
      }
      assert Contents()[..k] == Contents();
      return false;
    }

    // where the k-th element is, and that the tail is one place after the last
    lemma AtOffset(k: nat)
      requires Valid() && allocationSize > 0 && k <= |Contents()|
      ensures head + k < 2 * allocationSize
      ensures k < |Contents()| ==> Contents()[k] == buffer[Around(head + k, allocationSize)]
      ensures Around(head + k, allocationSize) == tail <==> k == |Contents()|
    {
    }

    lemma AtRemainder(k: nat)
      requires Valid() && k < |Contents()|
      ensures allocationSize > 0 && Contents()[k] == buffer[(head + k) % allocationSize]
    {
      hide Window, Around;
      if allocationSize == 0 {
        NothingHeld();
      } else {
        AtOffset(k);
        RemainderIsAround(head + k, allocationSize);
      }
    }

    lemma FromTheFront()
      requires Valid() && head == 0 && allocationSize > 0
      ensures Contents() == buffer[..tail]
    {
      hide Window;
      Straight(buffer[..], tail);
      assert buffer[..][0..tail] == buffer[..tail];
    }

    method Clear()
      requires Valid()
      modifies this
      ensures Valid() && Contents() == [] && (buffer == old(buffer) || fresh(buffer))
    {
      if allocationSize == 0 {
        return;
      }
      if allocationSize > 32 {
        buffer := new T[0];
        allocationSize := 0;
      }
      head, tail := 0, 0;
    }

    method ClearAndForceAllocation(size: nat)
      modifies this
      ensures Valid() && Contents() == [] && fresh(buffer) && allocationSize == size
    {
      buffer := new T[size];
      allocationSize := size;
      head, tail := 0, 0;
    }

    method Del(position: nat)
      requires Valid()
      modifies this`tail, buffer
      ensures Valid()
      ensures var was := old(Contents());
              Contents() == if position < |was| then was[..position] + was[position + 1..] else was
    {
      hide Window, Around, Shifted;
      NotHeld(position);
      if head == tail || position >= Size() {
        return;
      }
      ghost var was := Contents();
      Inside(position);
      var index := if head + position >= allocationSize then head + position - allocationSize else head + position;
      MoveForward(index, was, position);
      ShiftEnds(buffer[..], head, was, position, |was| - 1);
      AroundBack(head + |was| - 1, allocationSize);
      if tail == 0 {
        tail := allocationSize - 1;
      } else {
        tail := tail - 1;
      }
    }

    // overwrites the element at index, the p-th, by the one after it, and so on up to the last
    method MoveForward(from: nat, ghost was: seq<T>, ghost p: nat)
      requires buffer.Length == allocationSize && head < allocationSize && |was| < allocationSize && p < |was|
      requires tail == Around(head + |was|, allocationSize) && from == Around(head + p, allocationSize)
      requires Shifted(buffer[..], head, was, p, p)
      modifies buffer
      ensures Shifted(buffer[..], head, was, p, |was| - 1)
    {
      hide Around, Shifted;
      ghost var j := p;
      var index := from;
      var next := index + 1;
      if next == allocationSize {
        next := 0;
      }
      AroundNext(head + p, allocationSize);
      TailAt(head, tail, allocationSize, |was|, p + 1);
      while next != tail
        invariant p <= j < |was|
        invariant index == Around(head + j, allocationSize) && next == Around(head + j + 1, allocationSize)
        invariant next == tail <==> j + 1 == |was|
        invariant Shifted(buffer[..], head, was, p, j)
        decreases |was| - j
      {
        ShiftStep(buffer[..], head, was, p, j);
        TailAt(head, tail, allocationSize, |was|, j + 2);
        AroundNext(head + j + 1, allocationSize);
        buffer[index] := buffer[next];
        index := next;
        next := next + 1;
        if next == allocationSize {
          next := 0;
        }
        j := j + 1;
      }
    }

    // where an element is, before anything has been moved
    lemma Inside(position: nat)
      requires Valid() && position < |Contents()|
      ensures |Contents()| < allocationSize && tail == Around(head + |Contents()|, allocationSize)
      ensures var index := if head + position >= allocationSize then head + position - allocationSize
              else head + position;
              index == Around(head + position, allocationSize)
      ensures Shifted(buffer[..], head, Contents(), position, position)
    {
      ShiftStarts(buffer[..], head, tail, position);
    }

    lemma NotHeld(position: nat)
      requires Valid()
      ensures head == tail || position >= Size() <==> position >= |Contents()|
    {
    }

    // moves what the queue holds to a buffer of the smallest power of two above its size
    method Compress()
      requires Valid()
      modifies this
      ensures Valid() && Contents() == old(Contents()) && (buffer == old(buffer) || fresh(buffer))
      ensures old(allocationSize) > 0 ==>
                Size() < allocationSize && PowerOfTwo(allocationSize) &&
                  (allocationSize == 1 || allocationSize / 2 <= Size())
    {
      hide Window, Around, PowerOfTwo, Contents;
      if allocationSize == 0 {
        NothingHeld();
        return;
      }
      var size := Size();
      var newAllocationSize := PowerAbove(size);
      var newBuffer := new T[newAllocationSize];
      ghost var all := Contents();
      for counter := 0 to size
        modifies newBuffer
        invariant forall k :: 0 <= k < counter ==> newBuffer[k] == all[k]
      {
        AtRemainder(counter);
        newBuffer[counter] := buffer[(head + counter) % allocationSize];
      }
      assert newBuffer[..size] == all;
      tail := size;
      allocationSize := newAllocationSize;
      head := 0;
      buffer := newBuffer;
      FromTheFront();
    }
  }
}
