/** What a running program sees of its memory: the fault handler of trap.c, and any run of
    faults, accesses and heap system calls compared with a flat memory. */
module Execution {
  import opened Common
  import opened MemoryState
  import opened Clock
  import opened Freeing
  import opened MemoryManager
  import opened Trap
  import opened Ageing

  /** What happens to the memory of an environment: a handled table fault, a page fault
      handled with the given victim, an access by the processor, one of the system calls behind
      malloc and free on a number of bytes from page lo, a clock tick, or something that another
      environment does. */
  datatype Event =
    | TableFault(page: Page)
    | PageFault(page: Page, victim: nat)
    | Read(page: Page, seen: Content)
    | Write(page: Page, stored: Content)
    | AllocateMem(lo: Page, size: nat)
    | FreeMem(lo: Page, size: nat)
    | Tick
    | Others(deed: Deed)

  /** The environments share the frames and the clock hand: another one takes the first free
      frame, gives back the last reference of one, writes to one, or moves the hand. */
  datatype Deed =
    | Takes
    | Gives(frame: Frame)
    | Stores(frame: Frame, content: Content)
    | MovesHand(hand: nat)

  /** No page and no page table of this environment lies in the frame. */
  ghost predicate NotOurs(s: State, f: Frame) {
    (forall p | p in s.ptes :: s.ptes[p].frame != f) && forall d | d in s.tables :: s.tables[d] != f
  }

  ghost predicate Performed(s: State, deed: Deed, t: State) {
    match deed
    case Takes => s.free != [] && s.free[0] < |s.refs| && t == s.(free := s.free[1..], refs := s.refs[s.free[0] := 1])
    case Gives(f) =>
      && f < |s.refs| && 0 < s.refs[f] && NotOurs(s, f)
      && t == s.(free := [f] + s.free, refs := s.refs[f := 0])
    case Stores(f, c) => f < |s.ram| && NotOurs(s, f) && t == s.(ram := s.ram[f := c])
    case MovesHand(hand) => t == s.(hand := hand)
  }

  ghost predicate Ready(s: State) {
    Inv(s) && s.hand <= |s.ws|
  }

  /** The processor sets the used bit of a page it reads. */
  function Touched(s: State, p: Page): State
    requires p in s.ptes
  {
    s.(ptes := s.ptes[p := s.ptes[p].(used := true)])
  }

  /** The processor sets the used and modified bits of a page it writes. */
  function Stored(s: State, p: Page, c: Content): State
    requires p in s.ptes && s.ptes[p].frame < |s.ram|
  {
    s.(ptes := s.ptes[p := s.ptes[p].(used := true, modified := true)], ram := s.ram[s.ptes[p].frame := c])
  }

  /** One event takes the memory from s to t; room is the capacity of the page file.  On a full
      working set a page fault is only served with the hand inside it. */
  ghost predicate Happens(s: State, e: Event, t: State, room: nat) {
    match e
    case TableFault(p) =>
      && TableOf(p) !in s.tables && s.free != [] && s.free[0] < |s.refs|
      && t == NewTable(s, TableOf(p))
    case PageFault(p, victim) =>
      && (p in s.pageFile || |s.pageFile| < room)
      && (Full(s.ws) ==> s.hand <= |s.ws|)
      && exists u, junk :: Handled(s, u, t, p, victim, junk)
    case Read(p, seen) =>
      && p in s.ptes && s.ptes[p].frame < |s.ram|
      && seen == s.ram[s.ptes[p].frame] && t == Touched(s, p)
    case Write(p, stored) =>
      p in s.ptes && s.ptes[p].frame < |s.ram| && t == Stored(s, p, stored)
    case AllocateMem(lo, size) =>
      && HasRoom(s.pageFile, lo, PagesUp(size), room)
      && (forall p | lo <= p < lo + PagesUp(size) :: p !in s.ptes)
      && t == s.(pageFile := Reserved(s.pageFile, lo, PagesUp(size), room))
    case FreeMem(lo, size) =>
      s.ws != [] && t == Freed(s, lo, size / PAGE_SIZE, PagesUp(size))
    case Tick =>
      t == Ticked(s)
    case Others(deed) =>
      Performed(s, deed, t)
  }

  // ---------------------------------------------------------------- the flat memory

  /** A memory without paging: the content of every page the program owns.  A page of the
      stack has none before it is first written. */
  type Flat = map<Page, Option<Content>>

  predicate InRange(p: Page, lo: Page, k: nat) { lo <= p < lo + k }

  /** k pages from lo set to the given content. */
  function Filled(m: Flat, lo: Page, k: nat, c: Option<Content>): (r: Flat)
    ensures forall p :: p in r <==> p in m || InRange(p, lo, k)
    ensures forall p | p in r :: r[p] == if InRange(p, lo, k) then c else m[p]
    decreases k
  {
    if k == 0 then m else Filled(m, lo, k - 1, c)[lo + k - 1 := c]
  }

  /** The pages of [lo, hi) left without a defined content. */
  function Blurred(m: Flat, lo: Page, hi: Page): Flat {
    map p | p in m :: if lo <= p < hi then None else m[p]
  }

  /** Only a size that is not a page multiple leaves a page of its range, without content. */
  function FlatStep(m: Flat, e: Event): Flat {
    match e
    case TableFault(_) => m
    case PageFault(p, _) => if p in m then m else m[p := None]
    case Read(_, _) => m
    case Write(p, stored) => m[p := Some(stored)]
    case AllocateMem(lo, size) => Filled(m, lo, PagesUp(size), Some(ZeroPage()))
    case FreeMem(lo, size) =>
      Blurred(Outside(m, lo, lo + size / PAGE_SIZE), lo + size / PAGE_SIZE, lo + PagesUp(size))
    case Tick => m
    case Others(_) => m
  }

  /** What a read returns is what the flat memory holds, where that is defined. */
  predicate ReadsRight(m: Flat, e: Event) {
    e.Read? ==> e.page in m && (m[e.page].Some? ==> e.seen == m[e.page].value)
  }

  ghost predicate ShowsPage(s: State, p: Page, c: Option<Content>)
    requires p in s.pageFile
  {
    && (p in s.ptes ==> s.ptes[p].frame < |s.ram|)
    && (c.Some? ==> Logical(s, p) == c)
  }

  /** The paged memory has exactly the pages of the flat one, with their contents. */
  ghost predicate Shows(s: State, m: Flat) {
    s.pageFile.Keys == m.Keys && forall p | p in s.pageFile :: ShowsPage(s, p, m[p])
  }

  // ---------------------------------------------------------------- one event

  /** Used and modified bits do not matter to who owns a frame. */
  lemma TouchedFrames(s: State, p: Page, used: bool, modified: bool)
    requires FramesOk(s, {}) && p in s.ptes
    ensures FramesOk(s.(ptes := s.ptes[p := s.ptes[p].(used := used, modified := modified)]), {})
  {
  }

  lemma TouchedKeeps(s: State, p: Page)
    requires Inv(s) && p in s.ptes
    ensures Inv(Touched(s, p))
  {
    hide FramesOk, Compact, Names, Backed;
    TouchedFrames(s, p, true, s.ptes[p].modified);
    assert Touched(s, p).ptes.Keys == s.ptes.Keys;
    TouchedBacked(s, p);
  }

  lemma TouchedBacked(s: State, p: Page)
    requires Backed(s) && p in s.ptes
    ensures Backed(Touched(s, p))
  {
  }

  lemma TouchedShows(s: State, m: Flat, p: Page)
    requires Shows(s, m) && p in s.ptes
    ensures Shows(Touched(s, p), m)
  {
    forall q | q in s.pageFile
      ensures ShowsPage(Touched(s, p), q, m[q])
    {
      assert ShowsPage(s, q, m[q]);
    }
  }

  /** The frame of a page the program reads holds the content it is to see. */
  lemma ReadIsRight(s: State, m: Flat, p: Page)
    requires Inv(s) && Shows(s, m) && p in s.ptes
    ensures s.ptes[p].frame < |s.ram| && ReadsRight(m, Read(p, s.ram[s.ptes[p].frame]))
  {
    hide FramesOk, WsMatches, Compact;
    assert p in s.pageFile && ShowsPage(s, p, m[p]);
  }

  lemma StoredKeeps(s: State, p: Page, c: Content)
    requires Inv(s) && p in s.ptes && s.ptes[p].frame < |s.ram|
    ensures Inv(Stored(s, p, c))
  {
    hide FramesOk, Compact, Names, Backed;
    var t := Stored(s, p, c);
    TouchedFrames(s, p, true, true);
    FramesOnly(s.(ptes := t.ptes), t, {});
    assert t.ptes.Keys == s.ptes.Keys;
    FramesApart(s, p);
    StoredBacked(s, p, c);
  }

  lemma StoredBacked(s: State, p: Page, c: Content)
    requires Backed(s) && p in s.ptes && s.ptes[p].frame < |s.ram|
    requires forall q | q in s.ptes && q != p :: s.ptes[q].frame != s.ptes[p].frame
    ensures Backed(Stored(s, p, c))
  {
  }

  lemma FramesApart(s: State, p: Page)
    requires FramesOk(s, {}) && p in s.ptes
    ensures forall q | q in s.ptes && q != p :: s.ptes[q].frame != s.ptes[p].frame
  {
  }

  lemma StoredShows(s: State, m: Flat, p: Page, c: Content)
    requires Shows(s, m) && p in s.ptes && p in s.pageFile && s.ptes[p].frame < |s.ram|
    requires forall q | q in s.ptes && q != p :: s.ptes[q].frame != s.ptes[p].frame
    ensures Shows(Stored(s, p, c), m[p := Some(c)])
  {
    forall q | q in s.pageFile
      ensures ShowsPage(Stored(s, p, c), q, m[p := Some(c)][q])
    {
      assert ShowsPage(s, q, m[q]);
    }
  }

  lemma NewTableReady(s: State, d: nat)
    requires Inv(s) && d !in s.tables && s.free != [] && s.free[0] < |s.refs|
    ensures Inv(NewTable(s, d))
  {
    NewTableKeeps(s, {}, d);
    hide FramesOk, Compact, Names;
  }

  lemma NewTableShows(s: State, m: Flat, d: nat)
    requires Shows(s, m) && s.free != [] && s.free[0] < |s.refs|
    ensures Shows(NewTable(s, d), m)
  {
    forall q | q in s.pageFile
      ensures ShowsPage(NewTable(s, d), q, m[q])
    {
      assert ShowsPage(s, q, m[q]);
    }
  }

  /** Pages whose logical content does not change still show theirs. */
  lemma PagesCarried(s: State, t: State, m: Flat, n: Flat)
    requires Shows(s, m) && t.pageFile.Keys == n.Keys
    requires forall q | q in t.pageFile && q in t.ptes :: t.ptes[q].frame < |t.ram|
    requires forall q | q in t.pageFile && q in s.pageFile :: n[q] == m[q] && Logical(t, q) == Logical(s, q)
    requires forall q | q in t.pageFile && q !in s.pageFile :: n[q].None? || Logical(t, q) == n[q]
    ensures Shows(t, n)
  {
    hide Logical;
    forall q | q in t.pageFile
      ensures ShowsPage(t, q, n[q])
    {
      if q in s.pageFile { assert ShowsPage(s, q, m[q]); }
    }
  }

  lemma FramesBounded(s: State)
    requires Inv(s)
    ensures forall q | q in s.ptes :: q in s.pageFile && s.ptes[q].frame < |s.ram|
  {
  }

  /** What the handler does on a page fault shows only in a stack page that is new. */
  lemma PageFaultShows(s: State, u: State, t: State, m: Flat, p: Page, victim: nat, junk: Content)
    requires Inv(s) && Shows(s, m) && Handled(s, u, t, p, victim, junk)
    ensures Inv(t) && Shows(t, FlatStep(m, PageFault(p, victim)))
  {
    hide Inv, IsVictim, SlotBits, Full, Logical, Handled;
    HandledServed(s, u, t, p, victim, junk);
    FramesBounded(s);
    FramesBounded(t);
    SlotsExist(s);
    PagesCarried(s, t, m, FlatStep(m, PageFault(p, victim)));
  }

  lemma AllocateMemShows(s: State, m: Flat, lo: Page, size: nat, room: nat)
    requires Inv(s) && Shows(s, m) && HasRoom(s.pageFile, lo, PagesUp(size), room)
    requires forall p | lo <= p < lo + PagesUp(size) :: p !in s.ptes
    ensures var t := s.(pageFile := Reserved(s.pageFile, lo, PagesUp(size), room));
            Inv(t) && Shows(t, FlatStep(m, AllocateMem(lo, size)))
  {
    hide Inv, Reserved, Full, HasRoom, PagesUp;
    var k := PagesUp(size);
    var t := s.(pageFile := Reserved(s.pageFile, lo, k, room));
    ReservedKeeps(s, lo, k, room);
    ReservedInRoom(s.pageFile, lo, k, room);
    FramesBounded(s);
    forall q | q in t.pageFile
      ensures ShowsPage(t, q, FlatStep(m, AllocateMem(lo, size))[q])
    {
      if q in s.pageFile { assert ShowsPage(s, q, m[q]); }
    }
  }

  lemma FreeMemShows(s: State, m: Flat, lo: Page, size: nat)
    requires Inv(s) && Shows(s, m)
    ensures s.ws != []
    ensures var t := Freed(s, lo, size / PAGE_SIZE, PagesUp(size));
            Inv(t) && Shows(t, FlatStep(m, FreeMem(lo, size)))
  {
    SlotsExist(s);
    WholeAndRest(size);
    hide Inv, Packed, TablesLeft, Freed, PagesUp, ShowsPage, FlatStep, Outside;
    FreedExact(s, lo, size / PAGE_SIZE, PagesUp(size));
    FreedKeys(s, m, lo, size);
    var t := Freed(s, lo, size / PAGE_SIZE, PagesUp(size));
    forall q | q in t.pageFile
      ensures q in FlatStep(m, FreeMem(lo, size)) && ShowsPage(t, q, FlatStep(m, FreeMem(lo, size))[q])
    {
      OutsideHas(s, lo, lo + size / PAGE_SIZE, q);
      FreedPageShows(s, m, lo, size, q);
    }
  }

  lemma FreedKeys(s: State, m: Flat, lo: Page, size: nat)
    requires s.pageFile.Keys == m.Keys
    ensures Outside(s.pageFile, lo, lo + size / PAGE_SIZE).Keys == FlatStep(m, FreeMem(lo, size)).Keys
  {
    hide PagesUp;
  }

  lemma OutsideHas(s: State, lo: Page, hi: Page, q: Page)
    ensures q in Outside(s.pageFile, lo, hi) <==> q in s.pageFile && !(lo <= q < hi)
  {
  }

  lemma FreedPageShows(s: State, m: Flat, lo: Page, size: nat, q: Page)
    requires Inv(s) && Shows(s, m) && q in s.pageFile && !(lo <= q < lo + size / PAGE_SIZE)
    ensures s.ws != [] && q in FlatStep(m, FreeMem(lo, size))
    ensures var t := Freed(s, lo, size / PAGE_SIZE, PagesUp(size));
            q in t.pageFile && ShowsPage(t, q, FlatStep(m, FreeMem(lo, size))[q])
  {
    SlotsExist(s);
    WholeAndRest(size);
    hide Inv, Logical, Freed, PagesUp;
    FreedBytesTransparent(s, lo, size, q);
    assert ShowsPage(s, q, m[q]);
  }

  lemma SlotsExist(s: State)
    requires Inv(s)
    ensures s.ws != []
  {
  }

  /** Every event keeps the memory in order and is matched by the flat memory. */
  lemma EventShows(s: State, e: Event, t: State, m: Flat, room: nat)
    requires Inv(s) && Shows(s, m) && Happens(s, e, t, room)
    ensures Inv(t) && Shows(t, FlatStep(m, e)) && ReadsRight(m, e)
  {
    hide Inv, Shows, Handled, Freed, Reserved, HasRoom, PagesUp;
    match e
    case TableFault(p) => NewTableReady(s, TableOf(p)); NewTableShows(s, m, TableOf(p));
    case PageFault(p, victim) =>
      var u, junk :| Handled(s, u, t, p, victim, junk);
      PageFaultShows(s, u, t, m, p, victim, junk);
    case Read(p, _) => TouchedKeeps(s, p); TouchedShows(s, m, p); ReadIsRight(s, m, p);
    case Write(p, c) => StoredKeeps(s, p, c); ReadyPage(s, p); StoredShows(s, m, p, c);
    case AllocateMem(lo, size) => AllocateMemShows(s, m, lo, size, room);
    case FreeMem(lo, size) => FreeMemShows(s, m, lo, size);
    case Tick => TickShows(s, m);
    case Others(deed) => DeedShows(s, deed, t, m);
  }

  lemma TickShows(s: State, m: Flat)
    requires Inv(s) && Shows(s, m)
    ensures Inv(Ticked(s)) && Shows(Ticked(s), m)
  {
    hide Inv, Logical;
    TickedKeeps(s);
    FramesBounded(s);
    FramesBounded(Ticked(s));
    PagesCarried(s, Ticked(s), m, m);
  }

  /** What another environment does keeps this one's memory in order and shows in no page. */
  lemma DeedShows(s: State, deed: Deed, t: State, m: Flat)
    requires Inv(s) && Shows(s, m) && Performed(s, deed, t)
    ensures Inv(t) && Shows(t, m)
  {
    hide FramesOk, Backed, WsMatches, Compact, Shows;
    DeedFrames(s, deed, t);
    DeedBacked(s, deed, t);
    SameNames(s, t);
    DeedPages(s, deed, t, m);
  }

  lemma DeedPages(s: State, deed: Deed, t: State, m: Flat)
    requires Shows(s, m) && Performed(s, deed, t)
    ensures Shows(t, m)
  {
    forall q | q in s.pageFile
      ensures ShowsPage(t, q, m[q])
    {
      assert ShowsPage(s, q, m[q]);
    }
  }

  lemma DeedFrames(s: State, deed: Deed, t: State)
    requires FramesOk(s, {}) && Performed(s, deed, t)
    ensures FramesOk(t, {})
  {
    match deed
    case Takes => HeadTakenAway(s.free, s.refs); OwnersElsewhere(s, t, s.free[0]);
    case Gives(f) => InsertDistinct(f, s.free); OwnersElsewhere(s, t, f);
    case Stores(_, _) =>
    case MovesHand(_) =>
  }

  lemma HeadTakenAway(free: seq<Frame>, refs: seq<nat>)
    requires FreeOk(free, refs, {}) && free != []
    ensures free[0] < |refs| && FreeOk(free[1..], refs[free[0] := 1], {})
  {
    assert free[0] in free;
    assert forall f :: f in free <==> f == free[0] || f in free[1..];
  }

  lemma OwnersElsewhere(s: State, t: State, f: Frame)
    requires OwnersOk(s.refs, s.tables, s.ptes) && NotOurs(s, f) && f < |s.refs|
    requires t.tables == s.tables && t.ptes == s.ptes && |t.refs| == |s.refs|
    requires forall g | 0 <= g < |s.refs| && g != f :: t.refs[g] == s.refs[g]
    ensures OwnersOk(t.refs, t.tables, t.ptes)
  {
  }

  lemma DeedBacked(s: State, deed: Deed, t: State)
    requires Backed(s) && Performed(s, deed, t)
    ensures Backed(t)
  {
  }

  lemma ReadyPage(s: State, p: Page)
    requires Inv(s) && p in s.ptes
    ensures p in s.pageFile
    ensures forall q | q in s.ptes && q != p :: s.ptes[q].frame != s.ptes[p].frame
  {
    FramesBounded(s);
    FramesApart(s, p);
  }

  // ---------------------------------------------------------------- runs

  /** A run: event i takes state i to state i + 1. */
  ghost predicate Run(states: seq<State>, events: seq<Event>, room: nat) {
    && |states| == |events| + 1
    && forall i | 0 <= i < |events| :: Happens(states[i], events[i], states[i + 1], room)
  }

  function FlatRun(m: Flat, events: seq<Event>): Flat {
    if events == [] then m else FlatStep(FlatRun(m, events[..|events| - 1]), events[|events| - 1])
  }

  /** Paging is invisible over whole runs.  However table faults, page faults, accesses,
      allocating and freeing system calls, clock ticks and the deeds of other environments
      interleave, the memory stays in order, the program owns the pages it would own without
      paging, and every read returns what the flat memory holds. */
  lemma {:induction false} RunIsFlat(states: seq<State>, events: seq<Event>, m: Flat, room: nat, i: nat)
    requires Run(states, events, room) && Inv(states[0]) && Shows(states[0], m) && i <= |events|
    ensures Inv(states[i]) && Shows(states[i], FlatRun(m, events[..i]))
    ensures i < |events| ==> ReadsRight(FlatRun(m, events[..i]), events[i])
  {
    if i == 0 {
    } else {
      RunIsFlat(states, events, m, room, i - 1);
      assert events[..i][..i - 1] == events[..i - 1];
      EventShows(states[i - 1], events[i - 1], states[i], FlatRun(m, events[..i - 1]), room);
    }
    if i < |events| {
      EventShows(states[i], events[i], states[i + 1], FlatRun(m, events[..i]), room);
    }
  }

  // ---------------------------------------------------------------- the fault handler

  /** The address-space bounds the handler consults; the stack's are virtual pages. */
  datatype Layout = Layout(userLimit: nat, kernelStackFloor: nat, stackBottom: Page, stackTop: Page)

  /** How fault_handler ends: one of its two panics, a table fault (made tells whether a frame
      was left for the table), or a page fault. */
  datatype TrapEnd =
    | StackOverflow
    | StackUnderflow
    | TableEnd(made: bool)
    | PageEnd(end: FaultEnd)

  lemma ReadyTables(s: State)
    requires Ready(s)
    ensures Inv(s) && s.hand <= |s.ws| && Tabled(s) && (s.free != [] ==> s.free[0] < |s.refs|)
  {
    assert s.free != [] ==> s.free[0] in s.free;
  }

  lemma TableReady(s: State, d: nat)
    requires Ready(s) && d !in s.tables && s.free != []
    ensures s.free[0] < |s.refs| && Ready(NewTable(s, d))
  {
    ReadyTables(s);
    NewTableReady(s, d);
    NewTableHand(s, d);
  }

  lemma NewTableHand(s: State, d: nat)
    requires s.free != [] && s.free[0] < |s.refs|
    ensures NewTable(s, d).hand == s.hand && NewTable(s, d).ws == s.ws
  {
  }

  lemma ServedReady(s: State, t: State, p: Page, victim: nat)
    requires Served(s, t, p, victim)
    ensures Inv(t) && |t.ws| == |s.ws| && p in t.ptes
    ensures t.hand <= |t.ws| ==> Ready(t)
  {
  }

  lemma TableHappens(s: State, p: Page, room: nat)
    requires Ready(s) && TableOf(p) !in s.tables && s.free != []
    ensures s.free[0] < |s.refs|
    ensures Happens(s, TableFault(p), NewTable(s, TableOf(p)), room)
    ensures NewTable(s, TableOf(p)).tables.Keys == s.tables.Keys + {TableOf(p)}
  {
    ReadyTables(s);
  }

  lemma FaultHappens(s: State, u: State, t: State, p: Page, victim: nat, junk: Content, room: nat)
    requires Ready(s) && Handled(s, u, t, p, victim, junk) && (p in s.pageFile || |s.pageFile| < room)
    ensures Happens(s, PageFault(p, victim), t, room)
  {
    hide Inv, Handled;
  }

  /** A fault on an absent page.  A missing table is made first, and the access then faults
      again on the page itself; each of the two is an event of the run. */
  method FaultHandler(m: Machine, va: nat, fromUser: bool, layout: Layout, junk: Content)
    returns (r: TrapEnd, ghost victim: nat, ghost aged: State)
    requires Ready(m.S()) && va / PAGE_SIZE !in m.ptes
    modifies m`pageFile, m`free, m`tables, m`ptes, m`last, m`hand, m.refs, m.ram, m.ws
    ensures r == StackUnderflow <==> fromUser && layout.stackTop * PAGE_SIZE <= va
    ensures r == StackOverflow <==> !fromUser && layout.userLimit <= va < layout.kernelStackFloor
    ensures r != StackUnderflow && r != StackOverflow ==>
              if TableOf(va / PAGE_SIZE) in old(m.tables) then r.PageEnd? else r == TableEnd(old(m.free) != [])
    ensures r.PageEnd? ==> (r.end == NoMemory <==> !Full(old(m.ws[..])) && old(m.free) == [])
    ensures r == TableEnd(true) ==> m.tables.Keys == old(m.tables.Keys) + {TableOf(va / PAGE_SIZE)}
    ensures r == TableEnd(false) || r == StackUnderflow || r == StackOverflow ==> m.S() == old(m.S())
    ensures r == TableEnd(true) ==> Happens(old(m.S()), TableFault(va / PAGE_SIZE), m.S(), m.fileRoom)
    ensures r.PageEnd? && r.end == Done ==> Happens(old(m.S()), PageFault(va / PAGE_SIZE, victim), m.S(), m.fileRoom)
    ensures r.PageEnd? && r.end == Done ==> va / PAGE_SIZE in m.ptes
    ensures r.PageEnd? && r.end != NoMemory ==>
              var p := va / PAGE_SIZE;
              && (r.end == InvalidAccess <==> p !in old(m.pageFile) && !(layout.stackBottom <= p < layout.stackTop))
              && (r.end == Done <==>
                    || p in old(m.pageFile)
                    || (layout.stackBottom <= p < layout.stackTop && |old(m.pageFile)| < m.fileRoom))
    ensures r == TableEnd(true) || (r.PageEnd? && r.end == Done) ==> Ready(m.S())
  {
    hide Inv, Ready, Happens, Served, Effect, Full, Handled, NewTable;
    ghost var s0 := m.S();
    var p := va / PAGE_SIZE;
    if fromUser {
      if layout.stackTop * PAGE_SIZE <= va { return StackUnderflow, 0, s0; }
    } else if va < layout.kernelStackFloor && layout.userLimit <= va {
      return StackOverflow, 0, s0;
    }
    ReadyTables(m.S());
    if TableOf(p) !in m.tables {
      if m.free != [] {
        TableReady(m.S(), TableOf(p));
        TableHappens(m.S(), p, m.fileRoom);
      }
      var made := m.CreatePageTable(p);
      return TableEnd(made), 0, s0;
    }
    var end;
    end, victim, aged := PageFaultHandler(m, va, layout.stackBottom, layout.stackTop, junk);
    if end == Done {
      ServedReady(s0, m.S(), p, victim);
      FaultHappens(s0, aged, m.S(), p, victim, junk, m.fileRoom);
    }
    return PageEnd(end), victim, aged;
  }
}
