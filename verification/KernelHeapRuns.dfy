/** Runs of kmalloc and kfree: the page table of the kernel heap against the plain record of
    which blocks are live. */
module KernelHeapRuns {
  import opened Common
  import opened HeapSearch
  import opened KernelHeap
  import opened LiveBlocks

  datatype Event =
    | Kmalloc(k: nat, bestFit: bool, place: Option<nat>)
    | Kfree(s: nat)

  /** The pages in use are those of the live blocks, under the address of their block. */
  ghost predicate Mirrors(h: Heap, live: Blocks)
    requires |h.tag| == |h.isEmpty|
  {
    && (forall s: nat | s in live :: 0 < live[s] && s + live[s] <= Size(h))
    && (forall i: nat | i < Size(h) :: !h.isEmpty[i] <==> Covered(live, i))
    && forall s: nat, i: nat | Covers(live, s, i) && i < Size(h) :: h.tag[i] == Addr(h, s)
  }

  /** Live blocks never share a page. */
  lemma LiveApart(h: Heap, live: Blocks)
    requires |h.tag| == |h.isEmpty| && Mirrors(h, live)
    ensures Apart(live)
  {
    forall s: nat, u: nat, i: nat | Covers(live, s, i) && Covers(live, u, i)
      ensures s == u
    {
      assert h.tag[i] == Addr(h, s) == Addr(h, u);
    }
  }

  /** A page in use under the address of s lies in the live block from s. */
  lemma UnderTag(h: Heap, live: Blocks, s: nat, i: nat)
    requires |h.tag| == |h.isEmpty| && Mirrors(h, live)
    requires i < Size(h) && !h.isEmpty[i] && h.tag[i] == Addr(h, s)
    ensures Covers(live, s, i)
  {
    var u: nat :| Covers(live, u, i);
    assert Addr(h, u) == Addr(h, s);
  }

  /** The scan of kfree from the start of a live block stops where the block ends. */
  lemma LiveEnd(h: Heap, live: Blocks, s: nat)
    requires Inv(h) && !h.raw && Mirrors(h, live) && s in live
    ensures BlockEnd(h, s, Addr(h, s)) == s + live[s]
  {
    BlockEndSpans(h, s, Addr(h, s));
    hide Inv, BlockEnd;
    var e := BlockEnd(h, s, Addr(h, s));
    assert Covers(live, s, e) <==> e < s + live[s];
    if s + live[s] < e {
      UnderTag(h, live, s, s + live[s]);
    }
  }

  /** From any other page it frees nothing. */
  lemma StrangerEnd(h: Heap, live: Blocks, s: nat)
    requires Inv(h) && !h.raw && Mirrors(h, live) && s < Size(h) && s !in live
    ensures BlockEnd(h, s, Addr(h, s)) == s
  {
    if !h.isEmpty[s] && h.tag[s] == Addr(h, s) {
      UnderTag(h, live, s, s);
    }
  }

  // ---------------------------------------------------------------- one event

  function BlocksStep(live: Blocks, e: Event): Blocks {
    match e
    case Kmalloc(k, _, place) => if place.Some? then Added(live, place.value, k) else live
    case Kfree(s) => live - {s}
  }

  /** A search places the block, and there are frames for it; or it fails.  kfree is given the
      address of any heap page. */
  ghost predicate Happens(h: Heap, e: Event, t: Heap) {
    && |h.tag| == |h.isEmpty| && h.last <= Size(h)
    && match e
       case Kmalloc(k, bestFit, place) =>
         && Placed(h.isEmpty, h.last, k, bestFit, place)
         && (match place
             case None => t == h
             case Some(s) => k <= |h.free| && s + k <= Size(h) && t == Allocated(h, s, k))
       case Kfree(s) =>
         && s < Size(h)
         && var end := BlockEnd(h, s, Addr(h, s));
         && (forall i | s <= i < end :: i in h.frameOf)
         && t == Released(h, s, end)
  }

  lemma AllocatedMirrors(h: Heap, live: Blocks, s: nat, k: nat)
    requires Inv(h) && !h.raw && Mirrors(h, live) && Window(h.isEmpty, 0, Size(h), k, s) && k <= |h.free|
    ensures var a := Allocated(h, s, k);
            |a.tag| == |a.isEmpty| && Mirrors(a, Added(live, s, k))
  {
    var a := Allocated(h, s, k);
    TakenPages(h, s, k);
    TakenSizes(h, s, k);
    hide Inv, Taken, Mirrors;
    WithBlock(h, a, live, s, k);
  }

  lemma WithBlock(h: Heap, t: Heap, live: Blocks, s: nat, k: nat)
    requires |h.tag| == |h.isEmpty| == |t.tag| == |t.isEmpty| && Mirrors(h, live)
    requires Window(h.isEmpty, 0, Size(h), k, s)
    requires forall j: nat :: Addr(t, j) == Addr(h, j)
    requires forall j: nat | j < Size(h) :: t.isEmpty[j] == (h.isEmpty[j] && !(s <= j < s + k))
    requires forall j: nat | j < Size(h) :: t.tag[j] == if s <= j < s + k then Addr(h, s) else h.tag[j]
    ensures Mirrors(t, Added(live, s, k))
  {
    hide Addr;
    if 0 < k { assert h.isEmpty[s] && (Covers(live, s, s) <==> s in live); }
    forall i: nat | i < Size(t)
      ensures !t.isEmpty[i] <==> Covered(Added(live, s, k), i)
      ensures forall u: nat | Covers(Added(live, s, k), u, i) :: t.tag[i] == Addr(t, u)
    {
      CoveredWith(live, s, k, i);
      forall u: nat | Covers(Added(live, s, k), u, i)
        ensures t.tag[i] == Addr(t, u)
      {
        if s <= i < s + k { assert h.isEmpty[i] && !Covered(live, i); }
        assert Covers(live, u, i) || u == s;
      }
    }
  }

  lemma ReleasedMirrors(h: Heap, live: Blocks, s: nat)
    requires Inv(h) && !h.raw && Mirrors(h, live) && s in live
    requires forall i | s <= i < s + live[s] :: i in h.frameOf
    ensures var t := Released(h, s, s + live[s]);
            |t.tag| == |t.isEmpty| && Mirrors(t, live - {s})
  {
    var e := s + live[s];
    var t := Released(h, s, e);
    ReleasedPages(h, s, e);
    assert |t.tag| == |t.isEmpty| == Size(h);
    hide Inv, Released, Mirrors;
    WithoutBlock(h, t, live, s);
  }

  lemma WithoutBlock(h: Heap, t: Heap, live: Blocks, s: nat)
    requires |h.tag| == |h.isEmpty| == |t.tag| == |t.isEmpty| && Mirrors(h, live) && s in live
    requires forall j: nat :: Addr(t, j) == Addr(h, j)
    requires forall j: nat | j < Size(h) :: t.isEmpty[j] == (h.isEmpty[j] || Covers(live, s, j))
    requires forall j: nat | j < Size(h) && !Covers(live, s, j) :: t.tag[j] == h.tag[j]
    ensures Mirrors(t, live - {s})
  {
    LiveApart(h, live);
    hide Addr, Apart;
    forall i: nat | i < Size(t)
      ensures !t.isEmpty[i] <==> Covered(live - {s}, i)
      ensures forall u: nat | Covers(live - {s}, u, i) :: t.tag[i] == Addr(t, u)
    {
      CoveredWithout(live, s, i);
    }
  }

  lemma FreedMirrors(h: Heap, live: Blocks, s: nat)
    requires Inv(h) && !h.raw && Mirrors(h, live) && s < Size(h)
    ensures var t := Freed(h, s);
            |t.tag| == |t.isEmpty| && Mirrors(t, live - {s})
  {
    BlockMapped(h, s);
    hide Inv, Mirrors, BlockEnd, Released;
    if s in live {
      LiveEnd(h, live, s);
      ReleasedMirrors(h, live, s);
    } else {
      StrangerEnd(h, live, s);
      HeapShape(h);
      ReleasedNone(h, s);
      assert live - {s} == live;
    }
  }

  // ---------------------------------------------------------------- frames

  lemma MapGrows(m: map<nat, Frame>, i: nat, f: Frame)
    requires i !in m
    ensures |m[i := f]| == |m| + 1
  {
    assert m[i := f].Keys == m.Keys + {i};
  }

  ghost predicate NoneMapped(frameOf: map<nat, Frame>, s: nat, k: nat) {
    forall i: nat | s <= i < s + k :: i !in frameOf
  }

  lemma MappedNone(frameOf: map<nat, Frame>, s: nat, frames: seq<Frame>)
    ensures Mapped(frameOf, s, 0, frames) == frameOf
  {
  }

  lemma MappedStep(frameOf: map<nat, Frame>, s: nat, k: nat, frames: seq<Frame>)
    requires 0 < k <= |frames| && NoneMapped(frameOf, s, k)
    ensures NoneMapped(frameOf, s, k - 1)
    ensures |Mapped(frameOf, s, k, frames)| == |Mapped(frameOf, s, k - 1, frames)| + 1
  {
    var m := Mapped(frameOf, s, k - 1, frames);
    assert s + k - 1 !in frameOf;
    MapGrows(m, s + k - 1, frames[k - 1]);
  }

  lemma {:induction false} MappedCount(frameOf: map<nat, Frame>, s: nat, k: nat, frames: seq<Frame>)
    requires k <= |frames| && NoneMapped(frameOf, s, k)
    ensures |Mapped(frameOf, s, k, frames)| == |frameOf| + k
    decreases k
  {
    hide Mapped, NoneMapped;
    if k == 0 {
      MappedNone(frameOf, s, frames);
    } else {
      MappedStep(frameOf, s, k, frames);
      MappedCount(frameOf, s, k - 1, frames);
    }
  }

  lemma {:induction false} UnmappedCount(frameOf: map<nat, Frame>, s: nat, e: nat)
    requires s <= e && forall i | s <= i < e :: i in frameOf
    ensures |Unmapped(frameOf, s, e)| == |frameOf| - (e - s)
    decreases e
  {
    if s < e {
      UnmappedCount(frameOf, s, e - 1);
      assert Unmapped(frameOf, s, e - 1).Keys == Unmapped(frameOf, s, e).Keys + {e - 1};
    } else {
      assert Unmapped(frameOf, s, e) == frameOf;
    }
  }

  ghost function FrameCount(h: Heap): nat { |h.free| + |h.frameOf| }

  lemma AllocatedCount(h: Heap, s: nat, k: nat)
    requires Inv(h) && !h.raw && Window(h.isEmpty, 0, Size(h), k, s) && k <= |h.free|
    ensures FrameCount(Allocated(h, s, k)) == FrameCount(h)
  {
    MappedCount(h.frameOf, s, k, h.free);
  }

  lemma FreedCount(h: Heap, s: nat)
    requires Inv(h) && !h.raw && s < Size(h)
    ensures FrameCount(Freed(h, s)) == FrameCount(h)
  {
    BlockMapped(h, s);
    UnmappedCount(h.frameOf, s, BlockEnd(h, s, Addr(h, s)));
    hide Inv, Unmapped, Pushed;
  }

  // ---------------------------------------------------------------- runs

  lemma EventMirrors(h: Heap, e: Event, t: Heap, live: Blocks)
    requires Inv(h) && !h.raw && Mirrors(h, live) && Happens(h, e, t)
    ensures Inv(t) && !t.raw && Mirrors(t, BlocksStep(live, e)) && FrameCount(t) == FrameCount(h)
  {
    hide Inv, Mirrors, FrameCount, Placed, Window;
    match e
    case Kmalloc(k, bestFit, place) =>
      if place.Some? {
        HeapShape(h);
        PlacedIsWindow(h.isEmpty, h.last, k, bestFit, place.value);
        AllocatedKeeps(h, place.value, k);
        AllocatedMirrors(h, live, place.value, k);
        AllocatedCount(h, place.value, k);
      }
    case Kfree(s) =>
      FreedExact(h, s);
      FreedMirrors(h, live, s);
      FreedCount(h, s);
  }

  /** A run: event i takes heap i to heap i + 1. */
  ghost predicate Run(heaps: seq<Heap>, events: seq<Event>) {
    && |heaps| == |events| + 1
    && forall i | 0 <= i < |events| :: Happens(heaps[i], events[i], heaps[i + 1])
  }

  function BlocksRun(live: Blocks, events: seq<Event>): Blocks {
    if events == [] then live else BlocksStep(BlocksRun(live, events[..|events| - 1]), events[|events| - 1])
  }

  /** At every point of a run the pages in use are exactly those of the blocks allocated and
      not freed since, the blocks are disjoint, and no frame has been lost or gained. */
  lemma {:induction false} RunMirrors(heaps: seq<Heap>, live: Blocks, events: seq<Event>, i: nat)
    requires Run(heaps, events) && Inv(heaps[0]) && !heaps[0].raw && Mirrors(heaps[0], live) && i <= |events|
    ensures Inv(heaps[i]) && !heaps[i].raw && Mirrors(heaps[i], BlocksRun(live, events[..i]))
    ensures FrameCount(heaps[i]) == FrameCount(heaps[0])
  {
    if i == 0 {
    } else {
      RunMirrors(heaps, live, events, i - 1);
      assert events[..i][..i - 1] == events[..i - 1];
      EventMirrors(heaps[i - 1], events[i - 1], heaps[i], BlocksRun(live, events[..i - 1]));
    }
  }

  /** So kfree of any block that is live then frees all of it and nothing else. */
  lemma RunFrees(heaps: seq<Heap>, live: Blocks, events: seq<Event>, i: nat, s: nat)
    requires Run(heaps, events) && Inv(heaps[0]) && !heaps[0].raw && Mirrors(heaps[0], live) && i <= |events|
    requires s in BlocksRun(live, events[..i])
    ensures |heaps[i].tag| == |heaps[i].isEmpty| && s <= Size(heaps[i])
    ensures BlockEnd(heaps[i], s, Addr(heaps[i], s)) == s + BlocksRun(live, events[..i])[s]
  {
    RunMirrors(heaps, live, events, i);
    LiveEnd(heaps[i], BlocksRun(live, events[..i]), s);
  }

  /** From its first use on the heap has just the blocks that have been allocated since. */
  lemma RunFromStart(h: Heap, heaps: seq<Heap>, events: seq<Event>, i: nat)
    requires Inv(h) && h.raw && Run(heaps, events) && heaps[0] == Initialised(h) && i <= |events|
    ensures Inv(heaps[i]) && Mirrors(heaps[i], BlocksRun(map[], events[..i]))
    ensures FrameCount(heaps[i]) == |h.free|
  {
    InitialisedKeeps(h);
    assert forall i: nat :: !Covered(map[], i);
    assert Mirrors(heaps[0], map[]);
    RunMirrors(heaps, map[], events, i);
  }
}
