/** Runs of a process: malloc and free, the faults they lead to and the accesses of the program,
    against the plain record of the live blocks and the flat memory. */
module UserHeapRuns {
  import opened Common
  import opened HeapSearch
  import opened LiveBlocks
  import opened MemoryState
  import opened Freeing
  import opened Trap
  import opened Execution
  import opened UserHeap

  datatype World = World(table: Table, memory: State)

  datatype Call =
    | Malloc(k: nat, bestFit: bool, place: Option<nat>)
    | Free(s: nat)
    | Memory(event: Event)

  /** The pages in use are those of the live blocks, each of which records start and size. */
  ghost predicate Mirrors(t: Table, live: Blocks)
    requires Sized(t)
  {
    && (forall s: nat | s in live :: Block(t, s, live[s]))
    && forall i: nat | i < Pages(t) :: !t.isEmpty[i] <==> Covered(live, i)
  }

  /** malloc finds a place, and the page file room for it, or is refused; free is given the
      start of a block or a free page; and the program makes no page outside the page file
      resident in the heap, the stack being elsewhere. */
  ghost predicate Happens(w: World, c: Call, v: World, room: nat) {
    && Sized(w.table)
    && match c
       case Malloc(k, bestFit, place) =>
         && Placed(w.table.isEmpty, w.table.last, k, bestFit, place)
         && (match place
             case None => v == w
             case Some(s) =>
               && (k == 0 || |w.memory.pageFile| + k <= room)
               && v.table == Malloced(w.table, s, k)
               && v.memory == w.memory.(pageFile := Reserved(w.memory.pageFile, w.table.first + s, k, room)))
       case Free(s) =>
         && s < Pages(w.table) && Freeable(w.table, s) && w.memory.ws != []
         && var n := w.table.size[s] / PAGE_SIZE;
         && v.table == Cleared(w.table, s, n)
         && v.memory == Freed(w.memory, w.table.first + s, n, n)
       case Memory(e) =>
         && !e.AllocateMem? && !e.FreeMem?
         && (e.PageFault? ==> e.page in w.memory.pageFile || !HeapPage(w.table, e.page))
         && v.table == w.table && Execution.Happens(w.memory, e, v.memory, room)
  }

  /** What a call amounts to for the memory. */
  function MemoryEvent(t: Table, c: Call): Option<Event> {
    match c
    case Malloc(k, _, place) =>
      (match place case None => None case Some(s) => Some(AllocateMem(t.first + s, k * PAGE_SIZE)))
    case Free(s) =>
      if s < |t.size| then Some(FreeMem(t.first + s, t.size[s] / PAGE_SIZE * PAGE_SIZE)) else None
    case Memory(e) => Some(e)
  }

  function BlocksStep(live: Blocks, c: Call): Blocks {
    match c
    case Malloc(k, _, place) => if place.Some? then Added(live, place.value, k) else live
    case Free(s) => live - {s}
    case Memory(_) => live
  }

  /** Table, page file and memory are in order, and the table lists the given blocks. */
  ghost predicate Sound(w: World, live: Blocks) {
    && TableOk(w.table) && !w.table.raw && Inv(w.memory)
    && Agrees(w.table, w.memory.pageFile) && Mirrors(w.table, live)
  }

  // ---------------------------------------------------------------- blocks

  lemma LiveApart(t: Table, live: Blocks)
    requires Sized(t) && Mirrors(t, live)
    ensures Apart(live)
  {
    forall s: nat, u: nat, i: nat | Covers(live, s, i) && Covers(live, u, i)
      ensures s == u
    {
      BlocksDisjoint(t, s, live[s], u, live[u], i);
    }
  }

  lemma MallocedMirrors(t: Table, live: Blocks, s: nat, k: nat)
    requires Sized(t) && !t.raw && Mirrors(t, live) && Window(t.isEmpty, 0, Pages(t), k, s)
    ensures Sized(Malloced(t, s, k)) && Mirrors(Malloced(t, s, k), Added(live, s, k))
  {
    var r := Malloced(t, s, k);
    MarkedPages(t, s, k, k);
    hide Marked;
    if 0 < k { assert t.isEmpty[s] && (Covers(live, s, s) <==> s in live); }
    forall i: nat | i < Pages(r)
      ensures !r.isEmpty[i] <==> Covered(Added(live, s, k), i)
    {
      CoveredWith(live, s, k, i);
    }
    forall u: nat | u in Added(live, s, k)
      ensures Block(r, u, Added(live, s, k)[u])
    {
      if u in live && (k == 0 || u != s) {
        UntouchedBlock(t, live, s, k, u);
        BlockElsewhere(t, r, u, live[u]);
      }
    }
  }

  /** A window of free pages meets no live block. */
  lemma UntouchedBlock(t: Table, live: Blocks, s: nat, k: nat, u: nat)
    requires Sized(t) && Mirrors(t, live) && Window(t.isEmpty, 0, Pages(t), k, s) && u in live
    ensures k == 0 || u + live[u] <= s || s + k <= u
  {
    assert Block(t, u, live[u]);
    var j := if s < u then u else s;
    assert u <= j < u + live[u] ==> !t.isEmpty[j];
    assert s <= j < s + k ==> t.isEmpty[j];
  }

  lemma ClearedMirrors(t: Table, live: Blocks, s: nat)
    requires Sized(t) && Mirrors(t, live) && s in live
    ensures Sized(Cleared(t, s, live[s])) && Mirrors(Cleared(t, s, live[s]), live - {s})
  {
    hide Cleared, Apart, Covered, Block;
    var c, k := Cleared(t, s, live[s]), live[s];
    ClearedPages(t, s, k);
    LiveApart(t, live);
    forall i: nat | i < Pages(c)
      ensures !c.isEmpty[i] <==> Covered(live - {s}, i)
    {
      CoveredWithout(live, s, i);
    }
    forall u: nat | u in live - {s}
      ensures Block(c, u, live[u])
    {
      SurvivingBlock(t, c, live, s, u);
    }
  }

  lemma SurvivingBlock(t: Table, c: Table, live: Blocks, s: nat, u: nat)
    requires Sized(t) && Sized(c) && Mirrors(t, live) && Apart(live) && s in live && u in live && u != s
    requires Pages(c) == Pages(t) && c.first == t.first
    requires forall j: nat | j < Pages(t) && !(s <= j < s + live[s]) ::
               c.isEmpty[j] == t.isEmpty[j] && c.tag[j] == t.tag[j] && c.size[j] == t.size[j]
    ensures Block(c, u, live[u])
  {
    assert Block(t, u, live[u]) && Block(t, s, live[s]);
    OtherBlock(live, s, u);
    BlockElsewhere(t, c, u, live[u]);
  }

  lemma OtherBlock(live: Blocks, s: nat, u: nat)
    requires Apart(live) && s in live && u in live && u != s && 0 < live[s] && 0 < live[u]
    ensures u + live[u] <= s || s + live[s] <= u
  {
    var j := if s < u then u else s;
    assert Covers(live, s, j) && Covers(live, u, j) <==> j < s + live[s] && j < u + live[u];
  }

  /** The size at a page from which free may be called is that of the block it starts. */
  lemma FreeableBlock(t: Table, live: Blocks, s: nat)
    requires TableOk(t) && !t.raw && Mirrors(t, live) && s < Pages(t) && Freeable(t, s)
    ensures t.size[s] == if s in live then live[s] * PAGE_SIZE else 0
  {
    assert Recorded(t, s);
    assert s in live ==> Block(t, s, live[s]);
    if !t.isEmpty[s] {
      var u: nat :| Covers(live, u, s);
      assert Block(t, u, live[u]);
      assert t.tag[s] == Addr(t, u);
    }
  }

  // ---------------------------------------------------------------- one call

  lemma MallocSound(w: World, live: Blocks, s: nat, k: nat, room: nat)
    requires Sound(w, live) && Window(w.table.isEmpty, 0, Pages(w.table), k, s)
    requires k == 0 || |w.memory.pageFile| + k <= room
    ensures TableOk(Malloced(w.table, s, k)) && Mirrors(Malloced(w.table, s, k), Added(live, s, k))
    ensures Agrees(Malloced(w.table, s, k), Reserved(w.memory.pageFile, w.table.first + s, k, room))
    ensures HasRoom(w.memory.pageFile, w.table.first + s, k, room)
    ensures forall p | w.table.first + s <= p < w.table.first + s + k :: p !in w.memory.ptes
  {
    var lo := w.table.first + s;
    hide TableOk, Agrees, Mirrors, Window, Malloced, Reserved, HasRoom, Inv;
    TableShape(w.table);
    MallocedKeeps(w.table, s, k);
    MallocedMirrors(w.table, live, s, k);
    MallocedAgrees(w.table, w.memory.pageFile, s, k, room);
    RoomForAll(w.memory.pageFile, lo, k, room);
    WindowUnbacked(w.table, w.memory.pageFile, s, k);
    Unbacked(w.memory, lo, k);
  }

  lemma FreeSound(w: World, live: Blocks, s: nat)
    requires Sound(w, live) && s < Pages(w.table) && Freeable(w.table, s)
    ensures w.table.size[s] / PAGE_SIZE * PAGE_SIZE == w.table.size[s] && w.memory.ws != []
    ensures var n, lo := w.table.size[s] / PAGE_SIZE, w.table.first + s;
            && TableOk(Cleared(w.table, s, n)) && Mirrors(Cleared(w.table, s, n), live - {s})
            && Agrees(Cleared(w.table, s, n), Freed(w.memory, lo, n, n).pageFile)
  {
    var lo := w.table.first + s;
    hide TableOk, Agrees, Mirrors, Cleared, Inv, Freed, Freeable, Outside;
    TableShape(w.table);
    FreeableBlock(w.table, live, s);
    var n := FreedSize(w.table, s);
    WholePages(n);
    FreedFile(w.memory, lo, n);
    ClearedAgrees(w.table, w.memory.pageFile, s, n);
    if s in live {
      assert n == live[s];
      ClearedMirrors(w.table, live, s);
    } else {
      ClearedNothing(w.table, s);
      assert live - {s} == live;
    }
  }

  /** The events of the memory leave the heap's part of the page file alone. */
  lemma MemorySound(w: World, live: Blocks, e: Event, t: State, room: nat)
    requires Sound(w, live) && Execution.Happens(w.memory, e, t, room)
    requires !e.AllocateMem? && !e.FreeMem?
    requires e.PageFault? ==> e.page in w.memory.pageFile || !HeapPage(w.table, e.page)
    ensures Agrees(w.table, t.pageFile)
  {
    hide TableOk, Mirrors, Inv, Handled, Full, Agrees;
    TableShape(w.table);
    if e.PageFault? {
      var u, junk :| Handled(w.memory, u, t, e.page, e.victim, junk);
      HandledServed(w.memory, u, t, e.page, e.victim, junk);
      StrangersAgree(w.table, w.memory.pageFile, t.pageFile, e.page);
    } else {
      StrangersAgree(w.table, w.memory.pageFile, t.pageFile, 0);
    }
  }

  /** Every call keeps the process sound and does to the record of blocks and to the flat memory
      what its name says. */
  lemma CallSound(w: World, c: Call, v: World, live: Blocks, m: Flat, room: nat)
    requires Sound(w, live) && Shows(w.memory, m) && Happens(w, c, v, room)
    ensures Sound(v, BlocksStep(live, c))
    ensures Shows(v.memory, match MemoryEvent(w.table, c) case None => m case Some(e) => FlatStep(m, e))
    ensures c.Memory? ==> ReadsRight(m, c.event)
  {
    hide TableOk, Agrees, Mirrors, Malloced, Cleared, Freed, Reserved, HasRoom, Window, Placed, Freeable;
    hide Inv, Shows, FlatStep, ReadsRight, Handled;
    TableShape(w.table);
    match c
    case Malloc(k, bestFit, place) =>
      if place.Some? {
        var s := place.value;
        WholePages(k);
        PlacedIsWindow(w.table.isEmpty, w.table.last, k, bestFit, s);
        MallocSound(w, live, s, k, room);
        MallocedShape(w.table, s, k);
        EventShows(w.memory, AllocateMem(w.table.first + s, k * PAGE_SIZE), v.memory, m, room);
      }
    case Free(s) =>
      var n := w.table.size[s] / PAGE_SIZE;
      FreeSound(w, live, s);
      ClearedShape(w.table, s, n);
      WholePages(n);
      EventShows(w.memory, FreeMem(w.table.first + s, n * PAGE_SIZE), v.memory, m, room);
    case Memory(e) =>
      MemorySound(w, live, e, v.memory, room);
      EventShows(w.memory, e, v.memory, m, room);
  }

  lemma MallocedShape(t: Table, s: nat, k: nat)
    requires Sized(t)
    ensures Malloced(t, s, k).first == t.first && Malloced(t, s, k).raw == t.raw
  {
  }

  lemma ClearedShape(t: Table, s: nat, n: nat)
    requires Sized(t)
    ensures Cleared(t, s, n).first == t.first && Cleared(t, s, n).raw == t.raw
  {
  }

  // ---------------------------------------------------------------- runs

  /** A run: call i takes world i to world i + 1. */
  ghost predicate Run(worlds: seq<World>, calls: seq<Call>, room: nat) {
    && |worlds| == |calls| + 1
    && forall i | 0 <= i < |calls| :: Happens(worlds[i], calls[i], worlds[i + 1], room)
  }

  function BlocksRun(live: Blocks, calls: seq<Call>): Blocks {
    if calls == [] then live else BlocksStep(BlocksRun(live, calls[..|calls| - 1]), calls[|calls| - 1])
  }

  /** The flat memory after the first i calls. */
  function FlatAfter(worlds: seq<World>, calls: seq<Call>, m: Flat, i: nat): Flat
    requires i <= |calls| <= |worlds|
    decreases i
  {
    if i == 0 then m
    else
      var before := FlatAfter(worlds, calls, m, i - 1);
      match MemoryEvent(worlds[i - 1].table, calls[i - 1])
      case None => before
      case Some(e) => FlatStep(before, e)
  }

  /** At every point of a run of malloc, free, faults and accesses the table lists the blocks
      allocated and not freed since and agrees with the page file, and every read returns what
      a memory without paging would hold. */
  lemma {:induction false} RunAgrees(
    worlds: seq<World>, calls: seq<Call>, live: Blocks, m: Flat, room: nat, i: nat)
    requires Run(worlds, calls, room) && i <= |calls|
    requires Sound(worlds[0], live) && Shows(worlds[0].memory, m)
    ensures Sound(worlds[i], BlocksRun(live, calls[..i]))
    ensures Shows(worlds[i].memory, FlatAfter(worlds, calls, m, i))
    ensures i < |calls| && calls[i].Memory? ==> ReadsRight(FlatAfter(worlds, calls, m, i), calls[i].event)
    decreases i
  {
    hide Sound, Shows, ReadsRight, BlocksStep, MemoryEvent, FlatStep, Happens;
    if i == 0 {
    } else {
      RunAgrees(worlds, calls, live, m, room, i - 1);
      assert calls[..i][..i - 1] == calls[..i - 1];
      CallSound(worlds[i - 1], calls[i - 1], worlds[i], BlocksRun(live, calls[..i - 1]),
                FlatAfter(worlds, calls, m, i - 1), room);
    }
    if i < |calls| {
      CallSound(worlds[i], calls[i], worlds[i + 1], BlocksRun(live, calls[..i]),
                FlatAfter(worlds, calls, m, i), room);
    }
  }

  /** So at every point no two live blocks overlap, and a page of the heap is in the page file
      if and only if a live block covers it. */
  lemma RunPages(worlds: seq<World>, calls: seq<Call>, live: Blocks, m: Flat, room: nat, i: nat, p: Page)
    requires Run(worlds, calls, room) && i <= |calls|
    requires Sound(worlds[0], live) && Shows(worlds[0].memory, m) && HeapPage(worlds[i].table, p)
    ensures Apart(BlocksRun(live, calls[..i]))
    ensures p in worlds[i].memory.pageFile <==> Covered(BlocksRun(live, calls[..i]), p - worlds[i].table.first)
  {
    hide Sound, Shows, BlocksRun, Happens, Apart, Covered;
    RunAgrees(worlds, calls, live, m, room, i);
    LiveBacked(worlds[i], BlocksRun(live, calls[..i]), p);
  }

  lemma LiveBacked(w: World, live: Blocks, p: Page)
    requires Sound(w, live) && HeapPage(w.table, p)
    ensures Apart(live)
    ensures p in w.memory.pageFile <==> Covered(live, p - w.table.first)
  {
    LiveApart(w.table, live);
    hide TableOk, Covered, Apart, Block, Inv;
    assert InUse(w.table, p - w.table.first) <==> p in w.memory.pageFile;
  }

  /** A process starts soundly: its heap has no block and the page file no page of it. */
  lemma StartSound(t: Table, s: State)
    requires TableOk(t) && t.raw && Inv(s) && Agrees(t, s.pageFile)
    ensures Sound(World(Initialised(t), s), map[])
  {
    InitialisedKeeps(t);
    InitialisedAgrees(t, s.pageFile);
    assert forall i: nat :: !Covered(map[], i);
  }
}
