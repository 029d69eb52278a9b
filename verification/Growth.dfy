/** Growth of a stream's buffer: when it grows, where the block moves to, and what that copies. */
module Growth {
  import opened Bytes

  const STACK_ALLOCATION_SIZE: nat := 256

  // the block is the one inside the stream, the caller's own buffer, or on the heap
  datatype Place = Inside | Borrowed | OnHeap

  // the bits allocated and where, the bytes growth has copied, and the most bytes ever asked for
  datatype Room = Room(capacity: nat, place: Place, copied: nat, peak: nat)

  function Max(a: nat, b: nat): nat {
    if a >= b then a else b
  }

  // a block is moved unless it is inside the stream and the new size still fits there
  predicate Moves(place: Place, amount: nat) {
    place != Inside || amount > STACK_ALLOCATION_SIZE
  }

  function PlaceAfter(place: Place, amount: nat): Place {
    if place != OnHeap && amount <= STACK_ALLOCATION_SIZE then Inside else OnHeap
  }

  // what a reallocation to that many bytes makes of the block; a move copies all bytes allocated so far
  function Reallocated(r: Room, amount: nat): Room {
    Room(r.capacity, PlaceAfter(r.place, amount),
         r.copied + if Moves(r.place, amount) then BytesFor(r.capacity) else 0, r.peak)
  }

  // making room for a need counted in bits
  function Grow(r: Room, need: nat): Room {
    var asked := Room(r.capacity, r.place, r.copied, Max(r.peak, BytesFor(need)));
    if BytesFor(r.capacity) < BytesFor(need) then
      Reallocated(asked, BytesFor(2 * need)).(capacity := 2 * need)
    else
      asked.(capacity := Max(r.capacity, need))
  }

  // a call for n more bits; a count that is not positive is ignored
  function GrowBy(r: Room, used: nat, n: int): Room {
    if n <= 0 then r else Grow(r, used + n)
  }

  function GrowAll(r: Room, needs: seq<nat>): Room
    decreases |needs|
  {
    if needs == [] then r else GrowAll(Grow(r, needs[0]), needs[1..])
  }

  lemma OneNeed(r: Room, a: nat)
    ensures GrowAll(r, [a]) == Grow(r, a)
  {
    hide Grow;
    assert [a][1..] == [];
  }

  lemma TwoNeeds(r: Room, a: nat, b: nat)
    ensures GrowAll(r, [a, b]) == Grow(Grow(r, a), b)
  {
    hide Grow;
    assert [a, b][1..] == [b] && [b][1..] == [];
    assert GrowAll(Grow(r, a), [b]) == GrowAll(Grow(Grow(r, a), b), []);
  }

  // the most bytes any of the needs asks for
  function MostBytes(needs: seq<nat>): (m: nat)
    ensures forall need :: need in needs ==> BytesFor(need) <= m
    ensures needs != [] ==> exists need :: need in needs && m == BytesFor(need)
    decreases |needs|
  {
    if needs == [] then 0 else
      var m := MostBytes(needs[1..]);
      assert needs[0] in needs;
      assert forall need :: need in needs ==> need == needs[0] || need in needs[1..];
      Max(BytesFor(needs[0]), m)
  }

  // growth at least doubles, so all copies together stay within what is allocated and below twice the peak
  predicate Amortised(r: Room) {
    r.copied <= BytesFor(r.capacity) && (r.copied == 0 || r.copied < 2 * r.peak)
  }

  lemma NothingCopied(r: Room)
    requires r.copied == 0
    ensures Amortised(r)
  {
  }

  lemma GrowAmortised(r: Room, need: nat)
    requires Amortised(r)
    ensures Amortised(Grow(r, need))
  {
  }

  lemma {:induction false} GrowAllAmortised(r: Room, needs: seq<nat>)
    requires Amortised(r)
    ensures Amortised(GrowAll(r, needs)) && GrowAll(r, needs).peak == Max(r.peak, MostBytes(needs))
    decreases |needs|
  {
    if needs != [] {
      GrowAmortised(r, needs[0]);
      GrowAllAmortised(Grow(r, needs[0]), needs[1..]);
    }
  }

  lemma {:induction false} GrowAllAppend(r: Room, needs: seq<nat>, more: seq<nat>)
    ensures GrowAll(r, needs + more) == GrowAll(GrowAll(r, needs), more)
    decreases |needs|
  {
    hide Grow;
    if needs == [] {
      assert needs + more == more;
    } else {
      assert (needs + more)[1..] == needs[1..] + more;
      GrowAllAppend(Grow(r, needs[0]), needs[1..], more);
    }
  }

  // what was copied before does not influence growth
  lemma {:induction false} GrowAllFrom(r: Room, needs: seq<nat>, copied: nat, peak: nat)
    ensures var s, t := GrowAll(r, needs), GrowAll(Room(r.capacity, r.place, copied, peak), needs);
            s.copied - r.copied == t.copied - copied && s.capacity == t.capacity && s.place == t.place
    decreases |needs|
  {
    if needs != [] {
      var next := Grow(Room(r.capacity, r.place, copied, peak), needs[0]);
      GrowAllFrom(Grow(r, needs[0]), needs[1..], next.copied, next.peak);
    }
  }

  // Whatever a stream has been through, the bytes that growth copies over a run of calls for room are
  // fewer than twice the most bytes asked for in that run.
  lemma CopiesBounded(r: Room, needs: seq<nat>)
    ensures var copies := GrowAll(r, needs).copied - r.copied;
            0 <= copies && (copies == 0 || copies < 2 * MostBytes(needs))
  {
    hide Grow, GrowAll, MostBytes;
    GrowAllFrom(r, needs, 0, 0);
    GrowAllAmortised(Room(r.capacity, r.place, 0, 0), needs);
  }
}
