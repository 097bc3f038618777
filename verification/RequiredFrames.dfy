/** calculate_required_frames of memory_manager.c: the count it returns is exactly the number
    of frames that allocating and mapping the range takes. */
module RequiredFrames {
  import opened Common
  import opened MemoryState
  import opened MemoryManager

  const TABLE_SPAN: nat := PAGE_SIZE * TABLE_ENTRIES

  /** How many numbers of [lo, hi) are not in the set. */
  ghost function Missing(present: set<nat>, lo: nat, hi: nat): (c: nat)
    ensures hi <= lo ==> c == 0
    decreases hi
  {
    if hi <= lo then 0
    else Missing(present, lo, hi - 1) + if hi - 1 in present then 0 else 1
  }

  /** The missing tables and the unmapped pages of the non-empty page range [lo, hi). */
  ghost function Required(s: State, lo: Page, hi: Page): nat
    requires lo < hi
  {
    Missing(s.tables.Keys, TableOf(lo), TableOf(hi - 1) + 1) + Missing(s.ptes.Keys, lo, hi)
  }

  // ---------------------------------------------------------------- the count as written

  /** The first number of units of the given size that cover n. */
  function CeilDiv(n: nat, unit: nat): nat
    requires 0 < unit
  {
    (n + unit - 1) / unit
  }

  method CountTables(m: Machine, start: nat, size: nat) returns (count: nat)
    ensures count == Missing(m.tables.Keys, start / TABLE_SPAN, CeilDiv(start + size, TABLE_SPAN))
  {
    count := 0;
    ghost var d := start / TABLE_SPAN;
    var current := start - start % TABLE_SPAN;
    while current < start + size
      invariant current == d * TABLE_SPAN && start / TABLE_SPAN <= d
      invariant d <= CeilDiv(start + size, TABLE_SPAN) || d == start / TABLE_SPAN
      invariant count == Missing(m.tables.Keys, start / TABLE_SPAN, d)
      decreases start + size + TABLE_SPAN - current
    {
      var inMemory := m.GetPageTable(current / PAGE_SIZE);
      assert TableOf(current / PAGE_SIZE) == d;
      if !inMemory { count := count + 1; }
      current := current + TABLE_SPAN;
      d := d + 1;
    }
  }

  method CountPages(m: Machine, start: nat, size: nat) returns (count: nat)
    requires Tabled(m.S())
    ensures count == Missing(m.ptes.Keys, start / PAGE_SIZE, CeilDiv(start + size, PAGE_SIZE))
  {
    count := 0;
    ghost var p := start / PAGE_SIZE;
    var current := start - start % PAGE_SIZE;
    while current < start + size
      invariant current == p * PAGE_SIZE && start / PAGE_SIZE <= p
      invariant p <= CeilDiv(start + size, PAGE_SIZE) || p == start / PAGE_SIZE
      invariant count == Missing(m.ptes.Keys, start / PAGE_SIZE, p)
      decreases start + size + PAGE_SIZE - current
    {
      var frame := m.GetFrameInfo(current / PAGE_SIZE);
      if frame.None? { count := count + 1; }
      current := current + PAGE_SIZE;
      p := p + 1;
    }
  }

  /** No address of the computation may leave the 32-bit range.  For a size of 0 the table and
      the page in which the range starts are counted unless it starts at their boundary. */
  method CalculateRequiredFrames(m: Machine, start: nat, size: nat) returns (count: nat)
    requires Tabled(m.S()) && start + size + TABLE_SPAN <= WORD
    ensures 0 < size ==>
              && start / PAGE_SIZE < CeilDiv(start + size, PAGE_SIZE)
              && count == Required(m.S(), start / PAGE_SIZE, CeilDiv(start + size, PAGE_SIZE))
    ensures size == 0 ==>
              count == (if start % TABLE_SPAN == 0 || start / TABLE_SPAN in m.tables then 0 else 1)
                       + if start % PAGE_SIZE == 0 || start / PAGE_SIZE in m.ptes then 0 else 1
  {
    var numberOfTables := CountTables(m, start, size);
    var numberOfPages := CountPages(m, start, size);
    if 0 < size {
      SpanBounds(start, size);
    } else {
      EmptySpan(start);
      MissingOne(m.tables.Keys, start / TABLE_SPAN);
      MissingOne(m.ptes.Keys, start / PAGE_SIZE);
    }
    return numberOfTables + numberOfPages;
  }

  /** From a boundary a range of no bytes reaches no unit, and otherwise the one it starts in. */
  lemma EmptySpan(start: nat)
    ensures CeilDiv(start, PAGE_SIZE) == start / PAGE_SIZE + if start % PAGE_SIZE == 0 then 0 else 1
    ensures CeilDiv(start, TABLE_SPAN) == start / TABLE_SPAN + if start % TABLE_SPAN == 0 then 0 else 1
  {
  }

  lemma MissingOne(present: set<nat>, q: nat)
    ensures Missing(present, q, q) == 0
    ensures Missing(present, q, q + 1) == if q in present then 0 else 1
  {
  }

  /** The tables met by 4 MB steps are the tables the pages of the range lie in. */
  lemma SpanBounds(start: nat, size: nat)
    requires 0 < size
    ensures start / PAGE_SIZE < CeilDiv(start + size, PAGE_SIZE)
    ensures start / TABLE_SPAN == TableOf(start / PAGE_SIZE)
    ensures CeilDiv(start + size, TABLE_SPAN) == TableOf(CeilDiv(start + size, PAGE_SIZE) - 1) + 1
  {
  }

  // ---------------------------------------------------------------- what mapping the range takes

  /** Enough frames for one page and, if need be, its table. */
  ghost predicate CanMap(s: State, p: Page) {
    && 1 + (if TableOf(p) in s.tables then 0 else 1) <= |s.free|
    && forall i | 0 <= i < |s.free| :: s.free[i] < |s.refs|
  }

  /** Allocates a frame for page p and maps it there, unless p is mapped. */
  ghost function MapOne(s: State, p: Page): State
    requires p !in s.ptes ==> CanMap(s, p)
  {
    if p in s.ptes then s
    else MapFrame(Take(s), s.free[0], p)
  }

  /** Mapping a fresh frame at an unmapped page whose table is missing makes the table first. */
  lemma MapUnmapped(s: State, p: Page)
    requires p !in s.ptes && CanMap(s, p) && TableOf(p) !in s.tables
    ensures MapOne(s, p) == Link(NewTable(Take(s), TableOf(p)), s.free[0], p)
  {
  }

  lemma MapOneFrames(s: State, p: Page)
    requires FramesOk(s, {}) && p !in s.ptes && CanMap(s, p)
    ensures FramesOk(MapOne(s, p), {})
  {
    var f := s.free[0];
    TakeKeeps(s, {});
    assert {} + {f} - {f} == {};
    if TableOf(p) in s.tables {
      LinkKeeps(Take(s), {} + {f}, f, p);
    } else {
      MapUnmapped(s, p);
      NewTableKeeps(Take(s), {} + {f}, TableOf(p));
      NewTableLinks(Take(s), {} + {f}, f, p);
    }
  }

  lemma NewTableLinks(s: State, held: set<Frame>, f: Frame, p: Page)
    requires s.free != [] && s.free[0] < |s.refs|
    requires FramesOk(NewTable(s, TableOf(p)), held) && f in held && p !in s.ptes
    ensures f < |s.refs| && FramesOk(Link(NewTable(s, TableOf(p)), f, p), held - {f})
  {
    LinkKeeps(NewTable(s, TableOf(p)), held, f, p);
  }

  /** One page costs a frame if it is unmapped and one more if its table is missing. */
  lemma MapOneCost(s: State, p: Page)
    requires Tabled(s) && (p !in s.ptes ==> CanMap(s, p))
    ensures var t := MapOne(s, p);
            && t.ptes.Keys == s.ptes.Keys + {p} && t.tables.Keys == s.tables.Keys + {TableOf(p)}
            && (forall q | q in s.ptes :: t.ptes[q] == s.ptes[q])
            && |s.free| - |t.free| == (if p in s.ptes then 0 else 1) + if TableOf(p) in s.tables then 0 else 1
  {
  }

  /** Maps every page of [lo, hi), lowest first, as long as frames last. */
  ghost function MapRange(s: State, lo: Page, hi: Page): State
    decreases hi
  {
    if hi <= lo then s
    else
      var t := MapRange(s, lo, hi - 1);
      if hi - 1 in t.ptes || CanMap(t, hi - 1) then MapOne(t, hi - 1) else t
  }

  /** The pages and tables present once [lo, hi) has been mapped. */
  ghost predicate Covered(s: State, t: State, lo: Page, hi: Page) {
    && (forall p :: p in t.ptes <==> p in s.ptes || lo <= p < hi)
    && (forall p | p in s.ptes :: t.ptes[p] == s.ptes[p])
    && forall d :: d in t.tables <==> d in s.tables || (lo < hi && TableOf(lo) <= d <= TableOf(hi - 1))
  }

  /** A page more adds its own cost, and its table is missing exactly when it was missing at
      the outset and no earlier page of the range lies in it. */
  lemma RequiredStep(s: State, t: State, lo: Page, hi: Page)
    requires Tabled(s) && lo < hi && Covered(s, t, lo, hi)
    ensures Required(s, lo, hi + 1) - Required(s, lo, hi)
         == (if hi in t.ptes then 0 else 1) + if TableOf(hi) in t.tables then 0 else 1
  {
    assert TableOf(hi) == TableOf(hi - 1) || TableOf(hi) == TableOf(hi - 1) + 1;
  }

  lemma {:induction false} MissingMonotone(present: set<nat>, lo: nat, mid: nat, hi: nat)
    requires mid <= hi
    ensures Missing(present, lo, mid) <= Missing(present, lo, hi)
    decreases hi
  {
    if mid < hi { MissingMonotone(present, lo, mid, hi - 1); }
  }

  lemma RequiredMonotone(s: State, lo: Page, hi: Page)
    requires lo < hi
    ensures Required(s, lo, hi) <= Required(s, lo, hi + 1)
  {
    MissingMonotone(s.tables.Keys, TableOf(lo), TableOf(hi - 1) + 1, TableOf(hi) + 1);
  }

  lemma RequiredFirst(s: State, lo: Page)
    ensures Required(s, lo, lo + 1) == (if lo in s.ptes then 0 else 1) + if TableOf(lo) in s.tables then 0 else 1
  {
    assert Missing(s.tables.Keys, TableOf(lo), TableOf(lo)) == 0;
  }

  lemma CoveredStep(s: State, t: State, u: State, lo: Page, hi: Page)
    requires lo <= hi && Covered(s, t, lo, hi)
    requires u.ptes.Keys == t.ptes.Keys + {hi} && u.tables.Keys == t.tables.Keys + {TableOf(hi)}
    requires forall q | q in t.ptes :: u.ptes[q] == t.ptes[q]
    ensures Covered(s, u, lo, hi + 1)
  {
    if lo < hi {
      assert TableOf(hi) == TableOf(hi - 1) || TableOf(hi) == TableOf(hi - 1) + 1;
    }
  }

  /** The prediction is exact: mapping a range that was granted its required frames succeeds
      on every page, disturbs no earlier mapping, and uses up precisely that many frames. */
  lemma {:induction false} RequiredIsExact(s: State, lo: Page, hi: Page)
    requires FramesOk(s, {}) && lo < hi && Required(s, lo, hi) <= |s.free|
    ensures var t := MapRange(s, lo, hi);
            && FramesOk(t, {}) && Covered(s, t, lo, hi)
            && |t.free| == |s.free| - Required(s, lo, hi)
    decreases hi
  {
    var p := hi - 1;
    var t := MapRange(s, lo, p);
    TabledStart(s);
    hide FramesOk, Required, Covered, MapOne, TableOf, Tabled;
    if lo < p {
      RequiredMonotone(s, lo, p);
      RequiredIsExact(s, lo, p);
      RequiredStep(s, t, lo, p);
    } else {
      RequiredFirst(s, lo);
      CoveredNothing(s, lo);
    }
    FramesLast(t, p);
    if p !in t.ptes { MapOneFrames(t, p); }
    MapOneCost(t, p);
    CoveredStep(s, t, MapOne(t, p), lo, p);
  }

  lemma TabledStart(s: State)
    requires FramesOk(s, {})
    ensures Tabled(s)
  {
  }

  lemma CoveredNothing(s: State, lo: Page)
    ensures Covered(s, s, lo, lo)
  {
  }

  lemma FramesLast(t: State, p: Page)
    requires FramesOk(t, {})
    requires 1 + (if TableOf(p) in t.tables then 0 else 1) <= |t.free| || p in t.ptes
    ensures Tabled(t) && (p !in t.ptes ==> CanMap(t, p)) && (p in t.ptes ==> MapOne(t, p) == t)
  {
    assert forall i | 0 <= i < |t.free| :: t.free[i] in t.free;
  }
}
