/** Runs of writes and resets on one stream, and what growth copies over them. */
module StreamRuns {
  import opened Bytes
  import opened Growth
  import opened BitStreams
  import opened Scripts

  // one call: a write of an item, of another stream or of the stream itself, or a reset
  datatype Step = Write(item: Item) | WriteOther(source: nat, numberOfBits: int) | WriteSelf(numberOfBits: int) | Reset

  // both cursors, and how many bits are left unread in each of the other streams
  datatype Cursors = Cursors(used: nat, read: nat, left: seq<int>)

  ghost predicate Allowed(step: Step, c: Cursors) {
    match step
    case Write(item) => Writable(item, c.used)
    case WriteOther(source, _) => source < |c.left|
    case WriteSelf(_) => true
    case Reset => true
  }

  ghost function After(step: Step, c: Cursors): Cursors
    requires Allowed(step, c)
  {
    match step
    case Write(item) => c.(used := c.used + |Encoded(item, c.used)|)
    case WriteOther(source, n) =>
      var count := Copied(n, c.left[source]);
      c.(used := c.used + count, left := c.left[source := c.left[source] - count])
    case WriteSelf(n) =>
      var count := if n <= 0 || c.read >= c.used then 0 else n;
      c.(used := c.used + count, read := c.read + count)
    case Reset => c.(used := 0, read := 0)
  }

  // what the calls for room in a step ask for, in bits; a stream is given room before it is known how many
  // bits there are to copy
  ghost function Needs(step: Step, c: Cursors): seq<nat>
    requires Allowed(step, c)
  {
    match step
    case Write(item) => ItemNeeds(item, c.used)
    case WriteOther(_, n) => if n <= 0 then [] else [c.used + n]
    case WriteSelf(n) => if n <= 0 then [] else [c.used + n]
    case Reset => []
  }

  // every step is allowed where it comes
  ghost predicate Runnable(steps: seq<Step>, c: Cursors)
    decreases |steps|
  {
    steps != [] ==> Allowed(steps[0], c) && Runnable(steps[1..], After(steps[0], c))
  }

  ghost function RunNeeds(steps: seq<Step>, c: Cursors): seq<nat>
    requires Runnable(steps, c)
    decreases |steps|
  {
    if steps == [] then [] else Needs(steps[0], c) + RunNeeds(steps[1..], After(steps[0], c))
  }

  ghost function Streams(sources: seq<BitStream>): set<BitStream> {
    set source | source in sources
  }

  ghost function Blocks(sources: seq<BitStream>): set<object>
    reads Streams(sources)
  {
    set source | source in sources :: source.data
  }

  // the other streams are valid, all different, and share nothing with the written one
  ghost predicate Sources(bs: BitStream, sources: seq<BitStream>)
    reads bs, Streams(sources), Blocks(sources)
  {
    && (forall k :: 0 <= k < |sources| ==> sources[k].Valid() && sources[k].Footprint() !! bs.Footprint())
    && (forall j, k :: 0 <= j < k < |sources| ==> sources[j] != sources[k])
  }

  ghost function State(bs: BitStream, sources: seq<BitStream>): Cursors
    reads bs, Streams(sources)
  {
    Cursors(bs.numberOfBitsUsed, bs.readOffset,
            seq(|sources|, k requires 0 <= k < |sources| reads Streams(sources) =>
              sources[k].numberOfBitsUsed - sources[k].readOffset))
  }

  method PerformWrite(bs: BitStream, sources: seq<BitStream>, item: Item)
    requires bs.Valid() && Sources(bs, sources) && Allowed(Write(item), State(bs, sources))
    modifies bs.Footprint(), Streams(sources)`readOffset
    ensures bs.Valid() && fresh(bs.Footprint() - old(bs.Footprint())) && Sources(bs, sources)
    ensures State(bs, sources) == After(Write(item), old(State(bs, sources)))
    ensures bs.Space() == GrowAll(old(bs.Space()), Needs(Write(item), old(State(bs, sources))))
  {
    hide TakeBits, ZeroFrom, Encoded, Writable, ItemNeeds, Grow, GrowAll, Amortised;
    WriteItem(bs, item);
  }

  method PerformOther(bs: BitStream, sources: seq<BitStream>, source: nat, n: int)
    requires bs.Valid() && Sources(bs, sources) && Allowed(WriteOther(source, n), State(bs, sources))
    modifies bs.Footprint(), Streams(sources)`readOffset
    ensures bs.Valid() && fresh(bs.Footprint() - old(bs.Footprint())) && Sources(bs, sources)
    ensures State(bs, sources) == After(WriteOther(source, n), old(State(bs, sources)))
    ensures bs.Space() == GrowAll(old(bs.Space()), Needs(WriteOther(source, n), old(State(bs, sources))))
  {
    hide TakeBits, ZeroFrom, BytesFor, Grow, GrowAll, GrowBy, Amortised;
    NeedOf(bs.Space(), bs.numberOfBitsUsed, n);
    bs.WriteStream(sources[source], n);
  }

  method PerformSelf(bs: BitStream, sources: seq<BitStream>, n: int)
    requires bs.Valid() && Sources(bs, sources) && Allowed(WriteSelf(n), State(bs, sources))
    modifies bs.Footprint(), Streams(sources)`readOffset
    ensures bs.Valid() && fresh(bs.Footprint() - old(bs.Footprint())) && Sources(bs, sources)
    ensures State(bs, sources) == After(WriteSelf(n), old(State(bs, sources)))
    ensures bs.Space() == GrowAll(old(bs.Space()), Needs(WriteSelf(n), old(State(bs, sources))))
  {
    hide TakeBits, ZeroFrom, BytesFor, Grow, GrowAll, GrowBy, Amortised, Repeated;
    NeedOf(bs.Space(), bs.numberOfBitsUsed, n);
    bs.WriteOwn(n);
  }

  method PerformReset(bs: BitStream, sources: seq<BitStream>)
    requires bs.Valid() && Sources(bs, sources) && Allowed(Reset, State(bs, sources))
    modifies bs.Footprint(), Streams(sources)`readOffset
    ensures bs.Valid() && fresh(bs.Footprint() - old(bs.Footprint())) && Sources(bs, sources)
    ensures State(bs, sources) == After(Reset, old(State(bs, sources)))
    ensures bs.Space() == GrowAll(old(bs.Space()), Needs(Reset, old(State(bs, sources))))
  {
    hide TakeBits, ZeroFrom, BytesFor, Grow, GrowAll, GrowBy, Amortised;
    NoNeed(bs.Space());
    bs.Reset();
  }

  method Perform(bs: BitStream, sources: seq<BitStream>, step: Step)
    requires bs.Valid() && Sources(bs, sources) && Allowed(step, State(bs, sources))
    modifies bs.Footprint(), Streams(sources)`readOffset
    ensures bs.Valid() && fresh(bs.Footprint() - old(bs.Footprint())) && Sources(bs, sources)
    ensures State(bs, sources) == After(step, old(State(bs, sources)))
    ensures bs.Space() == GrowAll(old(bs.Space()), Needs(step, old(State(bs, sources))))
  {
    hide Sources, State, After, Needs, Allowed, GrowAll, BitStream.Valid;
    match step
    case Write(item) => PerformWrite(bs, sources, item);
    case WriteOther(source, n) => PerformOther(bs, sources, source, n);
    case WriteSelf(n) => PerformSelf(bs, sources, n);
    case Reset => PerformReset(bs, sources);
  }

  // From any state of the stream and over any run, the bytes growth copies are fewer than twice the most
  // bytes that a call of the run asked for.
  method Run(bs: BitStream, sources: seq<BitStream>, steps: seq<Step>)
    requires bs.Valid() && Sources(bs, sources) && Runnable(steps, State(bs, sources))
    modifies bs.Footprint(), Streams(sources)`readOffset
    ensures bs.Valid() && fresh(bs.Footprint() - old(bs.Footprint())) && Sources(bs, sources)
    ensures bs.Space() == GrowAll(old(bs.Space()), RunNeeds(steps, old(State(bs, sources))))
    ensures var copies := bs.bytesCopied - old(bs.bytesCopied);
            0 <= copies && (copies == 0 || copies < 2 * MostBytes(RunNeeds(steps, old(State(bs, sources)))))
    ensures bs.peakBytes == Max(old(bs.peakBytes), MostBytes(RunNeeds(steps, old(State(bs, sources)))))
  {
    hide Sources, State, After, Needs, Allowed, GrowAll, BitStream.Valid, Amortised, MostBytes, Runnable, RunNeeds;
    ghost var room, needs := bs.Space(), RunNeeds(steps, State(bs, sources));
    IsAmortised(bs);
    RunStarts(steps, State(bs, sources), room);
    for i := 0 to |steps|
      invariant bs.Valid() && fresh(bs.Footprint() - old(bs.Footprint())) && Sources(bs, sources)
      invariant Runnable(steps[i..], State(bs, sources))
      invariant GrowAll(room, needs) == GrowAll(bs.Space(), RunNeeds(steps[i..], State(bs, sources)))
    {
      RunStep(steps, i, State(bs, sources), bs.Space());
      Perform(bs, sources, steps[i]);
    }
    RunEnds(steps, State(bs, sources), bs.Space());
    CopiesBounded(room, needs);
    GrowAllAmortised(room, needs);
  }

  lemma IsAmortised(bs: BitStream)
    requires bs.Valid()
    ensures Amortised(bs.Space())
  {
  }

  lemma RunStarts(steps: seq<Step>, c: Cursors, r: Room)
    requires Runnable(steps, c)
    ensures Runnable(steps[0..], c) && GrowAll(r, RunNeeds(steps, c)) == GrowAll(r, RunNeeds(steps[0..], c))
  {
    assert steps[0..] == steps;
  }

  lemma RunStep(steps: seq<Step>, i: nat, c: Cursors, r: Room)
    requires i < |steps| && Runnable(steps[i..], c)
    ensures Allowed(steps[i], c) && Runnable(steps[i + 1..], After(steps[i], c))
    ensures GrowAll(r, RunNeeds(steps[i..], c)) ==
            GrowAll(GrowAll(r, Needs(steps[i], c)), RunNeeds(steps[i + 1..], After(steps[i], c)))
  {
    hide Allowed, After, Needs, GrowAll;
    assert steps[i..][0] == steps[i] && steps[i..][1..] == steps[i + 1..];
    GrowAllAppend(r, Needs(steps[i], c), RunNeeds(steps[i + 1..], After(steps[i], c)));
  }

  lemma RunEnds(steps: seq<Step>, c: Cursors, r: Room)
    ensures Runnable(steps[|steps|..], c) && GrowAll(r, RunNeeds(steps[|steps|..], c)) == r
  {
  }

  lemma NeedOf(r: Room, used: nat, n: int)
    ensures GrowBy(r, used, n) == GrowAll(r, if n <= 0 then [] else [used + n])
  {
    hide Grow;
    if n > 0 {
      OneNeed(r, used + n);
    }
  }

  lemma NoNeed(r: Room)
    ensures GrowAll(r, []) == r
  {
  }
}
