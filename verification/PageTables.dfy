/** Two-level page tables over reference-counted frames (kern/memory_manager.c).  The page
    directory and the page tables are frames themselves: arrays of 1024 words inside the
    memory that the free list hands out. */
module PageTables {
  import opened Common

  const ENTRIES: nat := 1024
  const TABLE_PERM: nat := 7         // PERM_PRESENT | PERM_USER | PERM_WRITEABLE
  const NO_MAPPING: nat := WORD - 1  // ~0

  // ---------------------------------------------------------------- words and entries

  /** PDX and PTX of a page number: 32-bit paging splits an address 10/10/12. */
  function Pdx(p: nat): nat { p / ENTRIES }
  function Ptx(p: nat): nat { p % ENTRIES }

  lemma PageSplits(p: nat, q: nat)
    ensures Ptx(p) < ENTRIES
    ensures Pdx(p) == Pdx(q) && Ptx(p) == Ptx(q) ==> p == q
  {
  }

  /** The address bits and the present bit of an entry. */
  function FrameOf(e: nat): Frame { e / PAGE_SIZE }
  predicate Present(e: nat) { e % 2 == 1 }

  lemma EntrySplits(f: Frame, flags: nat)
    requires flags < PAGE_SIZE
    ensures FrameOf(f * PAGE_SIZE + flags) == f
    ensures flags % 2 == 1 ==> Present(f * PAGE_SIZE + flags)
  {
    assert f * PAGE_SIZE == f * 4096;
    HighBits(f, flags);
    LowBit(f, flags);
  }

  lemma HighBits(f: nat, flags: nat)
    requires flags < 4096
    ensures (f * 4096 + flags) / 4096 == f
  {
  }

  lemma LowBit(f: nat, flags: nat)
    ensures (f * 4096 + flags) % 2 == flags % 2
  {
  }

  /** CONSTRUCT_ENTRY(frame address, perm | PERM_PRESENT). */
  function Construct(f: Frame, perm: nat): (e: nat)
    requires perm < PAGE_SIZE
    ensures e != 0 && Present(e) && FrameOf(e) == f
  {
    var flags := if perm % 2 == 1 then perm else perm + 1;
    EntrySplits(f, flags);
    f * PAGE_SIZE + flags
  }

  type Ram = seq<seq<nat>>

  function Word(ram: Ram, f: Frame, i: nat): nat {
    if f < |ram| && i < |ram[f]| then ram[f][i] else 0
  }

  function SetWord(ram: Ram, f: Frame, i: nat, e: nat): Ram {
    if f < |ram| && i < |ram[f]| then
      var row: seq<nat> := ram[f][i := e];
      ram[f := row]
    else ram
  }

  function ZeroFrame(ram: Ram, f: Frame): Ram {
    if f < |ram| then ram[f := seq<nat>(ENTRIES, _ => 0)] else ram
  }

  /** The translation structures: dir is the frame of the page directory, of whose entries
      the first limit are managed here. */
  datatype Space = Space(dir: Frame, limit: nat, ram: Ram)

  /** pins are the references a frame has from the boot, held the frames a caller has taken
      and not yet mapped. */
  datatype State = State(
    space: Space,
    free: seq<Frame>,
    refs: seq<nat>,
    pins: seq<nat>,
    held: set<Frame>)

  // ---------------------------------------------------------------- the abstract map

  function TableAt(m: Space, d: nat): Option<Frame> {
    var e := Word(m.ram, m.dir, d);
    if e == 0 then None else Some(FrameOf(e))
  }

  function Entry(m: Space, p: nat): nat {
    match TableAt(m, Pdx(p)) case None => 0 case Some(t) => Word(m.ram, t, Ptx(p))
  }

  /** The frame that page p is mapped to: the map that the two levels implement. */
  function Lookup(m: Space, p: nat): Option<Frame> {
    if Entry(m, p) == 0 then None else Some(FrameOf(Entry(m, p)))
  }

  /** check_va2pa, on a page number. */
  function Va2Pa(m: Space, p: nat): nat {
    var pde := Word(m.ram, m.dir, Pdx(p));
    if !Present(pde) then NO_MAPPING
    else
      var pte := Word(m.ram, FrameOf(pde), Ptx(p));
      if !Present(pte) then NO_MAPPING else FrameOf(pte) * PAGE_SIZE
  }

  // ---------------------------------------------------------------- invariant

  ghost predicate Shape(m: Space) {
    && m.dir < |m.ram| && m.limit <= ENTRIES
    && forall f | 0 <= f < |m.ram| :: |m.ram[f]| == ENTRIES
  }

  ghost predicate IsTable(m: Space, f: Frame) {
    exists d: nat :: d < m.limit && TableAt(m, d) == Some(f)
  }

  /** Tables are frames of their own, each used by one directory entry. */
  ghost predicate TablesOk(m: Space) {
    && (forall d: nat | d < m.limit && TableAt(m, d).Some? ::
          && Present(Word(m.ram, m.dir, d))
          && TableAt(m, d).value < |m.ram| && TableAt(m, d).value != m.dir)
    && forall d: nat, e: nat | d < m.limit && e < m.limit && d != e && TableAt(m, d).Some? ::
         TableAt(m, d) != TableAt(m, e)
  }

  ghost predicate PagesOk(m: Space) {
    forall p: nat | Pdx(p) < m.limit && Lookup(m, p).Some? ::
      Present(Entry(m, p)) && Lookup(m, p).value < |m.ram|
  }

  /** Mapped pages name frames that are neither tables nor the directory.  The operations do
      not depend on it. */
  ghost predicate Separate(m: Space) {
    forall p: nat | Pdx(p) < m.limit && Lookup(m, p).Some? ::
      Lookup(m, p).value != m.dir && !IsTable(m, Lookup(m, p).value)
  }

  ghost predicate SpaceOk(m: Space) {
    Shape(m) && TablesOk(m) && PagesOk(m)
  }

  /** The pages mapped to a frame, and the directory entries that use it as a table. */
  ghost function Users(m: Space, f: Frame): set<nat> {
    set p: nat | p < m.limit * ENTRIES && Lookup(m, p) == Some(f)
  }

  ghost function TableUsers(m: Space, f: Frame): set<nat> {
    set d: nat | d < m.limit && TableAt(m, d) == Some(f)
  }

  /** Reference counts are conserved. */
  ghost predicate Counted(m: Space, refs: seq<nat>, pins: seq<nat>) {
    && |pins| == |refs| && m.dir < |pins| && 0 < pins[m.dir]
    && forall f: nat | f < |refs| :: refs[f] == pins[f] + |Users(m, f)| + |TableUsers(m, f)|
  }

  ghost predicate Inv(s: State) {
    && |s.refs| == |s.space.ram|
    && SpaceOk(s.space) && FreeOk(s.free, s.refs, s.held) && Counted(s.space, s.refs, s.pins)
  }

  // ---------------------------------------------------------------- consequences

  lemma PageBelow(p: nat, limit: nat)
    ensures Pdx(p) < limit <==> p < limit * ENTRIES
  {
  }

  /** A frame that is the directory, a table or mapped has references, so it is neither free
      nor held. */
  lemma UsedIsReferenced(s: State, f: Frame)
    requires Inv(s) && f < |s.refs|
    requires f == s.space.dir || IsTable(s.space, f)
             || exists p: nat :: Pdx(p) < s.space.limit && Lookup(s.space, p) == Some(f)
    ensures 0 < s.refs[f] && f !in s.free && f !in s.held
  {
    if f == s.space.dir {
    } else if IsTable(s.space, f) {
      var d: nat :| d < s.space.limit && TableAt(s.space, d) == Some(f);
      assert d in TableUsers(s.space, f);
    } else {
      var p: nat :| Pdx(p) < s.space.limit && Lookup(s.space, p) == Some(f);
      PageBelow(p, s.space.limit);
      assert p in Users(s.space, f);
    }
  }

  /** The map that check_va2pa computes is the abstract one. */
  lemma Va2PaIsLookup(m: Space, p: nat)
    requires SpaceOk(m) && Pdx(p) < m.limit
    ensures Va2Pa(m, p) == match Lookup(m, p) case None => NO_MAPPING case Some(f) => f * PAGE_SIZE
  {
  }

  // ---------------------------------------------------------------- writing entries

  /** The entry of page p replaced, in the table that holds it. */
  function WriteEntry(m: Space, p: nat, e: nat): Space {
    match TableAt(m, Pdx(p)) case None => m case Some(t) => m.(ram := SetWord(m.ram, t, Ptx(p), e))
  }

  /** Writing one entry changes one page and no table. */
  lemma WriteEntryExact(m: Space, p: nat, e: nat)
    requires SpaceOk(m) && Pdx(p) < m.limit && TableAt(m, Pdx(p)).Some?
    ensures var n := WriteEntry(m, p, e);
            && Shape(n) && |n.ram| == |m.ram|
            && (forall d: nat | d < m.limit ::
                  TableAt(n, d) == TableAt(m, d) && Word(n.ram, n.dir, d) == Word(m.ram, m.dir, d))
            && forall q: nat | Pdx(q) < m.limit :: Entry(n, q) == if q == p then e else Entry(m, q)
  {
    var n, t := WriteEntry(m, p, e), TableAt(m, Pdx(p)).value;
    PageSplits(p, p);
    hide Pdx, Ptx, FrameOf, Present;
    forall q: nat | Pdx(q) < m.limit
      ensures Entry(n, q) == if q == p then e else Entry(m, q)
    {
      PageSplits(p, q);
      assert TableAt(n, Pdx(q)) == TableAt(m, Pdx(q));
      if Pdx(q) != Pdx(p) { assert TableAt(m, Pdx(q)) != TableAt(m, Pdx(p)); }
    }
  }

  /** Clearing an entry, or pointing it at any frame, keeps the structures in order. */
  lemma WriteEntryKeeps(m: Space, p: nat, e: nat)
    requires SpaceOk(m) && Pdx(p) < m.limit && TableAt(m, Pdx(p)).Some?
    requires e != 0 ==> Present(e) && FrameOf(e) < |m.ram|
    ensures SpaceOk(WriteEntry(m, p, e))
  {
    var n := WriteEntry(m, p, e);
    WriteEntryExact(m, p, e);
    hide WriteEntry, Pdx, Ptx, FrameOf, Present, Entry, TableAt;
    assert forall f: Frame :: IsTable(n, f) <==> IsTable(m, f);
  }

  /** Frame f zeroed and entered in the directory as table d. */
  function AddTable(m: Space, d: nat, f: Frame): Space {
    m.(ram := SetWord(ZeroFrame(m.ram, f), m.dir, d, Construct(f, TABLE_PERM)))
  }

  /** Nothing uses the frame. */
  ghost predicate Unused(m: Space, f: Frame) {
    && f < |m.ram| && f != m.dir && !IsTable(m, f)
    && forall p: nat | Pdx(p) < m.limit :: Lookup(m, p) != Some(f)
  }

  /** On-demand creation of a table changes no translation. */
  lemma AddTableExact(m: Space, d: nat, f: Frame)
    requires SpaceOk(m) && d < m.limit && TableAt(m, d).None? && Unused(m, f)
    ensures var n := AddTable(m, d, f);
            && Shape(n) && |n.ram| == |m.ram|
            && (forall e: nat | e < m.limit :: TableAt(n, e) == if e == d then Some(f) else TableAt(m, e))
            && (forall e: nat | e < m.limit && e != d :: Word(n.ram, n.dir, e) == Word(m.ram, m.dir, e))
            && Present(Word(n.ram, n.dir, d)) && Word(n.ram, n.dir, d) == f * PAGE_SIZE + TABLE_PERM
            && forall q: nat | Pdx(q) < m.limit :: Entry(n, q) == Entry(m, q)
  {
    var n := AddTable(m, d, f);
    hide Pdx, Ptx, FrameOf, Present;
    assert forall e: nat | e < m.limit && e != d :: Word(n.ram, n.dir, e) == Word(m.ram, m.dir, e);
    assert TableAt(n, d) == Some(f);
    forall q: nat | Pdx(q) < m.limit
      ensures Entry(n, q) == Entry(m, q)
    {
      if Pdx(q) == d {
        PageSplits(q, q);
      } else if TableAt(m, Pdx(q)).Some? {
        assert TableAt(m, Pdx(q)).value != f;
      }
    }
  }

  lemma AddTableKeeps(m: Space, d: nat, f: Frame)
    requires SpaceOk(m) && d < m.limit && TableAt(m, d).None? && Unused(m, f)
    ensures SpaceOk(AddTable(m, d, f))
  {
    var n := AddTable(m, d, f);
    AddTableExact(m, d, f);
    hide AddTable, Pdx, Ptx, FrameOf, Present, Entry, TableAt;
    assert forall g: Frame | g != f && IsTable(n, g) :: IsTable(m, g);
  }

  // ---------------------------------------------------------------- counting

  lemma UsersAfterWrite(m: Space, p: nat, e: nat, f: Frame)
    requires SpaceOk(m) && Pdx(p) < m.limit && TableAt(m, Pdx(p)).Some?
    ensures var n := WriteEntry(m, p, e);
            && Users(n, f) == Users(m, f) - {p} + (if e != 0 && FrameOf(e) == f then {p} else {})
            && TableUsers(n, f) == TableUsers(m, f)
  {
    WriteEntryExact(m, p, e);
    PageBelow(p, m.limit);
    forall q: nat
      ensures q < m.limit * ENTRIES <==> Pdx(q) < m.limit
    {
      PageBelow(q, m.limit);
    }
    hide WriteEntry, Pdx, FrameOf, Entry, TableAt;
  }

  lemma UsersAfterTable(m: Space, d: nat, t: Frame, f: Frame)
    requires SpaceOk(m) && d < m.limit && TableAt(m, d).None? && Unused(m, t)
    ensures var n := AddTable(m, d, t);
            && Users(n, f) == Users(m, f)
            && TableUsers(n, f) == TableUsers(m, f) + (if f == t then {d} else {})
            && d !in TableUsers(m, f)
  {
    AddTableExact(m, d, t);
    forall q: nat
      ensures q < m.limit * ENTRIES <==> Pdx(q) < m.limit
    {
      PageBelow(q, m.limit);
    }
    hide AddTable, Pdx, FrameOf, Entry, TableAt;
  }

  // ---------------------------------------------------------------- operations on values

  /** allocate_frame: the head of the free list goes to the caller. */
  function Take(s: State): State {
    if s.free == [] || |s.refs| <= s.free[0] then s
    else s.(free := s.free[1..], refs := s.refs[s.free[0] := 0], held := s.held + {s.free[0]})
  }

  /** free_frame on a frame its caller holds. */
  function GiveBack(s: State, f: Frame): State {
    s.(free := [f] + s.free, held := s.held - {f})
  }

  /** get_page_table with creation, when the table is missing and a frame is left. */
  function MakeTable(s: State, d: nat): State {
    if s.free == [] || |s.refs| <= s.free[0] then s
    else s.(space := AddTable(s.space, d, s.free[0]), free := s.free[1..], refs := s.refs[s.free[0] := 1])
  }

  /** decrement_references. */
  function Drop(s: State, f: Frame): State {
    if |s.refs| <= f || s.refs[f] == 0 then s
    else
      var left: nat := s.refs[f] - 1;
      s.(refs := s.refs[f := left], free := if left == 0 then [f] + s.free else s.free)
  }

  function Unmap(s: State, p: nat): State {
    match Lookup(s.space, p)
    case None => s
    case Some(f) => Drop(s, f).(space := WriteEntry(s.space, p, 0))
  }

  /** The closing assignments of map_frame: the frame gains a reference and the entry names it. */
  function Put(s: State, f: Frame, p: nat, perm: nat): State
    requires perm < PAGE_SIZE
  {
    if |s.refs| <= f then s
    else
      var more: nat := s.refs[f] + 1;
      s.(space := WriteEntry(s.space, p, Construct(f, perm)), refs := s.refs[f := more], held := s.held - {f})
  }

  /** A frame a caller may map: any that is not on the free list. */
  predicate Mappable(s: State, f: Frame) {
    f < |s.refs| && f !in s.free
  }

  // ---------------------------------------------------------------- what they keep

  lemma TakeKeeps(s: State)
    requires Inv(s) && s.free != []
    ensures s.free[0] < |s.refs| && Inv(Take(s)) && Mappable(Take(s), s.free[0]) && s.free[0] !in s.held
  {
    var f := s.free[0];
    assert f in s.free;
    assert s.refs[f := 0] == s.refs;
    FreeUnused(s, f);
    assert forall g :: g in s.free <==> g == f || g in s.free[1..];
    hide SpaceOk, Counted;
  }

  /** A free frame, and one that a caller holds, is used by no translation. */
  lemma FreeUnused(s: State, f: Frame)
    requires Inv(s) && f < |s.refs| && (f in s.free || f in s.held)
    ensures Unused(s.space, f) && s.refs[f] == 0
  {
    if f == s.space.dir || IsTable(s.space, f)
       || exists p: nat :: Pdx(p) < s.space.limit && Lookup(s.space, p) == Some(f) {
      UsedIsReferenced(s, f);
      assert false;
    }
  }

  lemma GiveBackKeeps(s: State, f: Frame)
    requires Inv(s) && f in s.held
    ensures Inv(GiveBack(s, f))
  {
    hide SpaceOk, Counted;
    assert f !in s.free;
    InsertDistinct(f, s.free);
  }

  lemma MakeTableKeeps(s: State, d: nat)
    requires Inv(s) && s.free != [] && d < s.space.limit && TableAt(s.space, d).None?
    ensures s.free[0] < |s.refs| && Inv(MakeTable(s, d))
  {
    var f := s.free[0];
    assert f in s.free;
    FreeUnused(s, f);
    AddTableKeeps(s.space, d, f);
    AddTableExact(s.space, d, f);
    MakeTableFree(s.free, s.refs, s.held);
    forall g: Frame
      ensures Users(AddTable(s.space, d, f), g) == Users(s.space, g)
      ensures TableUsers(AddTable(s.space, d, f), g) == TableUsers(s.space, g) + (if g == f then {d} else {})
      ensures d !in TableUsers(s.space, g)
    {
      UsersAfterTable(s.space, d, f, g);
    }
    hide SpaceOk, FreeOk, AddTable;
  }

  lemma MakeTableFree(free: seq<Frame>, refs: seq<nat>, held: set<Frame>)
    requires FreeOk(free, refs, held) && free != []
    ensures free[0] < |refs| && FreeOk(free[1..], refs[free[0] := 1], held)
  {
    assert free[0] in free;
    assert forall f :: f in free <==> f == free[0] || f in free[1..];
  }

  lemma DropFree(free: seq<Frame>, refs: seq<nat>, held: set<Frame>, f: Frame)
    requires FreeOk(free, refs, held) && f < |refs| && 0 < refs[f]
    ensures var left: nat := refs[f] - 1;
            FreeOk(if left == 0 then [f] + free else free, refs[f := left], held)
  {
  }

  /** How many pages use a frame after the entry of page p has been replaced. */
  lemma UserCounts(m: Space, p: nat, e: nat, g: Frame)
    requires SpaceOk(m) && Pdx(p) < m.limit && TableAt(m, Pdx(p)).Some?
    ensures var n := WriteEntry(m, p, e);
            && |Users(n, g)| == |Users(m, g)| - (if Lookup(m, p) == Some(g) then 1 else 0)
                                              + (if e != 0 && FrameOf(e) == g then 1 else 0)
            && |TableUsers(n, g)| == |TableUsers(m, g)|
  {
    UserOfOne(m, p, g);
    hide SpaceOk, WriteEntry, Users, TableUsers, Pdx, Lookup, TableAt, FrameOf;
    UsersAfterWrite(m, p, e, g);
    Resized(Users(m, g), p, e != 0 && FrameOf(e) == g);
  }

  lemma Resized(a: set<nat>, p: nat, add: bool)
    ensures |a - {p} + if add then {p} else {}| == |a| - (if p in a then 1 else 0) + if add then 1 else 0
  {
    assert p in a ==> a - {p} + {p} == a;
    assert p !in a ==> a - {p} == a;
  }

  /** A page uses the frame it is mapped to, if any, and no other. */
  lemma UserOfOne(m: Space, p: nat, g: Frame)
    requires Pdx(p) < m.limit
    ensures p in Users(m, g) <==> Lookup(m, p) == Some(g)
  {
    PageBelow(p, m.limit);
  }

  /** Clearing the entry of a page takes one reference from the frame it named. */
  lemma CountedAfterClear(m: Space, refs: seq<nat>, pins: seq<nat>, p: nat, f: Frame)
    requires SpaceOk(m) && Counted(m, refs, pins) && |refs| == |m.ram|
    requires Pdx(p) < m.limit && TableAt(m, Pdx(p)).Some? && Lookup(m, p) == Some(f)
    requires f < |refs| && 0 < refs[f]
    ensures var left: nat := refs[f] - 1; Counted(WriteEntry(m, p, 0), refs[f := left], pins)
  {
    hide SpaceOk, WriteEntry, Users, TableUsers, Pdx, Lookup, TableAt, FrameOf;
    WriteEntryBounds(m, p, 0);
    forall g: Frame
      ensures |Users(WriteEntry(m, p, 0), g)| == |Users(m, g)| - if g == f then 1 else 0
      ensures |TableUsers(WriteEntry(m, p, 0), g)| == |TableUsers(m, g)|
    {
      UserCounts(m, p, 0, g);
    }
  }

  /** Entering a frame for an unmapped page gives it one reference. */
  lemma CountedAfterPut(m: Space, refs: seq<nat>, pins: seq<nat>, p: nat, f: Frame, e: nat)
    requires SpaceOk(m) && Counted(m, refs, pins) && |refs| == |m.ram|
    requires Pdx(p) < m.limit && TableAt(m, Pdx(p)).Some? && Lookup(m, p).None?
    requires f < |refs| && e != 0 && FrameOf(e) == f
    ensures var more: nat := refs[f] + 1; Counted(WriteEntry(m, p, e), refs[f := more], pins)
  {
    hide SpaceOk, WriteEntry, Users, TableUsers, Pdx, Lookup, TableAt, FrameOf;
    WriteEntryBounds(m, p, e);
    forall g: Frame
      ensures |Users(WriteEntry(m, p, e), g)| == |Users(m, g)| + if g == f then 1 else 0
      ensures |TableUsers(WriteEntry(m, p, e), g)| == |TableUsers(m, g)|
    {
      UserCounts(m, p, e, g);
    }
  }

  lemma WriteEntryBounds(m: Space, p: nat, e: nat)
    ensures var n := WriteEntry(m, p, e); |n.ram| == |m.ram| && n.dir == m.dir && n.limit == m.limit
  {
  }

  lemma MappedInside(m: Space, p: nat)
    requires SpaceOk(m) && Pdx(p) < m.limit && Lookup(m, p).Some?
    ensures Lookup(m, p).value < |m.ram| && TableAt(m, Pdx(p)).Some?
  {
  }

  lemma UnmapKeeps(s: State, p: nat)
    requires Inv(s) && Pdx(p) < s.space.limit
    ensures Lookup(s.space, p).Some? ==> Lookup(s.space, p).value < |s.refs| && 0 < s.refs[Lookup(s.space, p).value]
    ensures Inv(Unmap(s, p))
  {
    if Lookup(s.space, p).Some? {
      hide SpaceOk, FreeOk, Counted, WriteEntry, TableUsers, Users, Entry;
      var f := Lookup(s.space, p).value;
      MappedInside(s.space, p);
      UsedIsReferenced(s, f);
      DropFree(s.free, s.refs, s.held, f);
      WriteEntryKeeps(s.space, p, 0);
      WriteEntryBounds(s.space, p, 0);
      CountedAfterClear(s.space, s.refs, s.pins, p, f);
    }
  }

  lemma PutFree(free: seq<Frame>, refs: seq<nat>, held: set<Frame>, f: Frame)
    requires FreeOk(free, refs, held) && f < |refs| && f !in free
    ensures var more: nat := refs[f] + 1; FreeOk(free, refs[f := more], held - {f})
  {
  }

  lemma PutKeeps(s: State, f: Frame, p: nat, perm: nat)
    requires Inv(s) && Pdx(p) < s.space.limit && Mappable(s, f) && perm < PAGE_SIZE
    requires TableAt(s.space, Pdx(p)).Some? && Lookup(s.space, p).None?
    ensures Inv(Put(s, f, p, perm))
  {
    hide Construct, Pdx, Present, FrameOf, SpaceOk, FreeOk, Counted, WriteEntry, Lookup, TableAt;
    var e := Construct(f, perm);
    PutFree(s.free, s.refs, s.held, f);
    WriteEntryKeeps(s.space, p, e);
    WriteEntryBounds(s.space, p, e);
    CountedAfterPut(s.space, s.refs, s.pins, p, f, e);
  }

  // ---------------------------------------------------------------- mapping

  datatype Mapping = NoMemory | Mapped(state: State)

  /** map_frame: makes the table if it is missing, leaves a page alone that is mapped to this
      very frame, and otherwise unmaps what is there and enters the frame. */
  function MapOf(s: State, f: Frame, p: nat, perm: nat): Mapping
    requires perm < PAGE_SIZE
  {
    if TableAt(s.space, Pdx(p)).None? && s.free == [] then NoMemory
    else
      var t := WithTable(s, Pdx(p));
      Mapped(if Lookup(t.space, p) == Some(f) then t else Put(Unmap(t, p), f, p, perm))
  }

  /** The state once table d is there, if there is a frame for it. */
  function WithTable(s: State, d: nat): State {
    if TableAt(s.space, d).Some? then s else MakeTable(s, d)
  }

  lemma WithTableKeeps(s: State, d: nat)
    requires Inv(s) && d < s.space.limit && (TableAt(s.space, d).Some? || s.free != [])
    ensures s.free != [] ==> s.free[0] < |s.refs|
    ensures var t := WithTable(s, d);
            && Inv(t) && t.space.limit == s.space.limit && |t.refs| == |s.refs| && TableAt(t.space, d).Some?
            && (forall p: nat | Pdx(p) < s.space.limit :: Lookup(t.space, p) == Lookup(s.space, p))
            && forall f | Mappable(s, f) :: Mappable(t, f)
  {
    if s.free != [] { assert s.free[0] in s.free; }
    if TableAt(s.space, d).None? {
      MakeTableKeeps(s, d);
      FreeUnused(s, s.free[0]);
      AddTableExact(s.space, d, s.free[0]);
    }
  }

  lemma UnmapExact(s: State, p: nat)
    requires Inv(s) && Pdx(p) < s.space.limit
    ensures var t := Unmap(s, p);
            && t.space.limit == s.space.limit && |t.refs| == |s.refs| && t.held == s.held && t.pins == s.pins
            && (forall q: nat | Pdx(q) < s.space.limit ::
                  Lookup(t.space, q) == if q == p then None else Lookup(s.space, q))
            && (forall d: nat | d < s.space.limit :: TableAt(t.space, d) == TableAt(s.space, d))
            && t.space.dir == s.space.dir
  {
    if Lookup(s.space, p).Some? {
      WriteEntryExact(s.space, p, 0);
    }
  }

  lemma UnmapMappable(s: State, p: nat, f: Frame)
    requires Inv(s) && Pdx(p) < s.space.limit && Mappable(s, f) && Lookup(s.space, p) != Some(f)
    ensures Mappable(Unmap(s, p), f)
  {
    UnmapExact(s, p);
    var t := Unmap(s, p);
    assert IsTable(t.space, f) ==> IsTable(s.space, f);
  }

  lemma PutExact(s: State, f: Frame, p: nat, perm: nat)
    requires Inv(s) && Pdx(p) < s.space.limit && TableAt(s.space, Pdx(p)).Some? && f < |s.refs| && perm < PAGE_SIZE
    ensures var t := Put(s, f, p, perm);
            && t.space.limit == s.space.limit && t.space.dir == s.space.dir && |t.refs| == |s.refs|
            && (forall d: nat | d < s.space.limit :: TableAt(t.space, d) == TableAt(s.space, d))
            && forall q: nat | Pdx(q) < s.space.limit ::
                 Lookup(t.space, q) == if q == p then Some(f) else Lookup(s.space, q)
  {
    WriteEntryExact(s.space, p, Construct(f, perm));
  }

  // ---------------------------------------------------------------- the words in memory

  /** The word that the processor finds for page p: directory word p / 1024 names a frame in its
      upper 20 bits, and the word is number p % 1024 of that frame. */
  function PageWord(m: Space, p: nat): nat {
    var pde := Word(m.ram, m.dir, p / 1024);
    if pde == 0 then 0 else Word(m.ram, pde / 4096, p % 1024)
  }

  lemma EntryIsWord(m: Space, p: nat)
    ensures Entry(m, p) == PageWord(m, p) && Pdx(p) == p / 1024
  {
  }

  /** The words of all pages but p and all directory words but number d are the same. */
  ghost predicate SameWords(m: Space, n: Space, p: nat, d: nat) {
    && n.dir == m.dir && n.limit == m.limit
    && (forall q: nat | q / 1024 < m.limit && q != p :: PageWord(n, q) == PageWord(m, q))
    && forall e: nat | e < m.limit && e != d :: Word(n.ram, n.dir, e) == Word(m.ram, m.dir, e)
  }

  lemma WriteWords(m: Space, p: nat, e: nat)
    requires SpaceOk(m) && Pdx(p) < m.limit && TableAt(m, Pdx(p)).Some?
    ensures SameWords(m, WriteEntry(m, p, e), p, m.limit) && PageWord(WriteEntry(m, p, e), p) == e
  {
    var n := WriteEntry(m, p, e);
    WriteEntryExact(m, p, e);
    WriteEntryBounds(m, p, e);
    hide SpaceOk, WriteEntry, Entry, PageWord, Pdx, Word;
    EntryIsWord(n, p);
    EntryIsWord(m, p);
    forall q: nat | q / 1024 < m.limit && q != p
      ensures PageWord(n, q) == PageWord(m, q)
    {
      EntryIsWord(n, q);
      EntryIsWord(m, q);
    }
  }

  lemma TableWords(m: Space, d: nat, f: Frame)
    requires SpaceOk(m) && d < m.limit && TableAt(m, d).None? && Unused(m, f)
    ensures var n := AddTable(m, d, f);
            && n.dir == m.dir && n.limit == m.limit
            && (forall q: nat | q / 1024 < m.limit :: PageWord(n, q) == PageWord(m, q))
            && (forall e: nat | e < m.limit && e != d :: Word(n.ram, n.dir, e) == Word(m.ram, m.dir, e))
            && Word(n.ram, n.dir, d) == f * 4096 + 7
  {
    var n := AddTable(m, d, f);
    AddTableExact(m, d, f);
    AddTableBounds(m, d, f);
    hide SpaceOk, AddTable, Entry, PageWord, Pdx, Word, Unused;
    forall q: nat | q / 1024 < m.limit
      ensures PageWord(n, q) == PageWord(m, q)
    {
      EntryIsWord(n, q);
      EntryIsWord(m, q);
    }
  }

  lemma AddTableBounds(m: Space, d: nat, f: Frame)
    ensures AddTable(m, d, f).dir == m.dir && AddTable(m, d, f).limit == m.limit
  {
  }

  /** perm | PERM_PRESENT in the low 12 bits under the frame's address. */
  lemma ConstructWord(f: Frame, perm: nat)
    requires perm < PAGE_SIZE
    ensures Construct(f, perm) == f * 4096 + if perm % 2 == 1 then perm else perm + 1
  {
  }

  /** What unmapping writes. */
  lemma UnmapWords(s: State, p: nat)
    requires Inv(s) && Pdx(p) < s.space.limit
    ensures SameWords(s.space, Unmap(s, p).space, p, s.space.limit) && PageWord(Unmap(s, p).space, p) == 0
  {
    EntryIsWord(s.space, p);
    if Lookup(s.space, p).Some? {
      WriteWords(s.space, p, 0);
    }
  }

  /** What a successful mapping writes: the frame's address and perm with the present bit, unless
      the page was mapped to this very frame; and for a new table its frame with the bits 7. */
  lemma MapWords(s: State, f: Frame, p: nat, perm: nat)
    requires Inv(s) && Pdx(p) < s.space.limit && Mappable(s, f) && perm < PAGE_SIZE
    requires MapOf(s, f, p, perm).Mapped?
    ensures var t := MapOf(s, f, p, perm).state;
            && SameWords(s.space, t.space, p, p / 1024)
            && PageWord(t.space, p) == (if Lookup(s.space, p) == Some(f) then PageWord(s.space, p)
                                        else f * 4096 + if perm % 2 == 1 then perm else perm + 1)
            && Word(t.space.ram, t.space.dir, p / 1024)
            == if Word(s.space.ram, s.space.dir, p / 1024) == 0 then s.free[0] * 4096 + 7
               else Word(s.space.ram, s.space.dir, p / 1024)
  {
    hide Inv, Unmap, Put, WithTable, PageWord, SameWords, Lookup, TableAt, Word, Pdx;
    EntryIsWord(s.space, p);
    var t := WithTable(s, Pdx(p));
    NoTable(s.space, p);
    WithTableKeeps(s, Pdx(p));
    WithTableWords(s, p);
    ConstructWord(f, perm);
    if Lookup(t.space, p) == Some(f) {
      SameItself(s.space, t.space, p);
    } else {
      UnmapKeeps(t, p);
      UnmapExact(t, p);
      UnmapWords(t, p);
      MappableBound(t, f);
      var u := Unmap(t, p);
      PutWords(u, f, p, perm);
      WordsCompose(s.space, t.space, u.space, Put(u, f, p, perm).space, p);
    }
  }

  lemma NoTable(m: Space, p: nat)
    ensures TableAt(m, Pdx(p)).None? <==> Word(m.ram, m.dir, p / 1024) == 0
  {
  }

  lemma SameItself(m: Space, n: Space, p: nat)
    requires SameWords(m, n, m.limit * 1024, p / 1024)
    ensures SameWords(m, n, p, p / 1024) && (p / 1024 < m.limit ==> PageWord(n, p) == PageWord(m, p))
  {
  }

  lemma PutWords(s: State, f: Frame, p: nat, perm: nat)
    requires Inv(s) && Pdx(p) < s.space.limit && TableAt(s.space, Pdx(p)).Some? && f < |s.refs| && perm < PAGE_SIZE
    ensures var t := Put(s, f, p, perm);
            SameWords(s.space, t.space, p, s.space.limit) && PageWord(t.space, p) == Construct(f, perm)
  {
    WriteWords(s.space, p, Construct(f, perm));
    hide SameWords, WriteEntry;
  }

  /** A new table changes the word of no page and one directory word. */
  lemma WithTableWords(s: State, p: nat)
    requires Inv(s) && Pdx(p) < s.space.limit && (TableAt(s.space, Pdx(p)).Some? || s.free != [])
    ensures var t := WithTable(s, Pdx(p));
            && SameWords(s.space, t.space, s.space.limit * 1024, p / 1024)
            && Word(t.space.ram, t.space.dir, p / 1024)
            == if Word(s.space.ram, s.space.dir, p / 1024) == 0 then s.free[0] * 4096 + 7
               else Word(s.space.ram, s.space.dir, p / 1024)
  {
    NoTable(s.space, p);
    EntryIsWord(s.space, p);
    if TableAt(s.space, Pdx(p)).None? {
      var f := s.free[0];
      assert f in s.free;
      FreeUnused(s, f);
      TableWords(s.space, Pdx(p), f);
      hide Inv, AddTable, PageWord, Word, TableAt, Unused;
    }
  }

  lemma WordsCompose(m: Space, t: Space, u: Space, n: Space, p: nat)
    requires SameWords(m, t, m.limit * 1024, p / 1024) && SameWords(t, u, p, t.limit) && SameWords(u, n, p, u.limit)
    ensures SameWords(m, n, p, p / 1024)
    ensures p / 1024 < m.limit ==> Word(n.ram, n.dir, p / 1024) == Word(t.ram, t.dir, p / 1024)
  {
    hide PageWord, Word;
  }

  /** One reference of the frame, if there is one, has gone from s to t, and on the last of them
      the frame has become the head of the free list. */
  ghost predicate Unreferenced(s: State, t: State, was: Option<Frame>) {
    && |t.refs| == |s.refs| && t.pins == s.pins && t.held == s.held
    && match was
       case None => t.refs == s.refs && t.free == s.free
       case Some(g) =>
         && g < |s.refs| && t.refs[g] + 1 == s.refs[g]
         && (forall h | 0 <= h < |s.refs| && h != g :: t.refs[h] == s.refs[h])
         && t.free == if s.refs[g] == 1 then [g] + s.free else s.free
  }

  lemma UnmapRefs(s: State, p: nat)
    requires Inv(s) && Pdx(p) < s.space.limit
    ensures Unreferenced(s, Unmap(s, p), Lookup(s.space, p))
  {
    UnmapKeeps(s, p);
    hide Inv, WriteEntry;
    MappedReferenced(s, p);
  }

  lemma MappedReferenced(s: State, p: nat)
    requires Inv(s) && Pdx(p) < s.space.limit
    ensures Lookup(s.space, p).Some? ==>
              var g := Lookup(s.space, p).value; g < |s.refs| && 0 < s.refs[g] && g !in s.free
  {
    if Lookup(s.space, p).Some? {
      MappedInside(s.space, p);
      UsedIsReferenced(s, Lookup(s.space, p).value);
    }
  }

  /** Frame f has been mapped at page p: mapping the same frame again does nothing, otherwise f
      gains a reference and is no longer held, the frame that was mapped there loses one, and a
      new table takes the first free frame. */
  ghost predicate Recounted(s: State, t: State, f: Frame, p: nat) {
    var was := Lookup(s.space, p);
    && |t.refs| == |s.refs| && f < |s.refs| && t.pins == s.pins
    && if was == Some(f) then t == s
       else
         && t.refs[f] == s.refs[f] + 1 && t.held == s.held - {f}
         && (was.Some? ==>
               && was.value < |s.refs| && t.refs[was.value] + 1 == s.refs[was.value]
               && t.free == if s.refs[was.value] == 1 then [was.value] + s.free else s.free)
         && (was.None? && Word(s.space.ram, s.space.dir, p / 1024) != 0 ==> t.free == s.free)
         && (Word(s.space.ram, s.space.dir, p / 1024) == 0 ==>
               s.free != [] && s.free[0] < |s.refs| && t.refs[s.free[0]] == 1 && t.free == s.free[1..])
  }

  /** What a successful mapping does to the counts and the free list. */
  lemma MapRefs(s: State, f: Frame, p: nat, perm: nat)
    requires Inv(s) && Pdx(p) < s.space.limit && Mappable(s, f) && perm < PAGE_SIZE
    requires MapOf(s, f, p, perm).Mapped?
    ensures Recounted(s, MapOf(s, f, p, perm).state, f, p)
  {
    hide Inv, WithTable, Unmap, Lookup, TableAt, Pdx, Word;
    var t := WithTable(s, Pdx(p));
    WithTableKeeps(s, Pdx(p));
    WithTableRefs(s, Pdx(p));
    LookupTable(s.space, p);
    NoTable(s.space, p);
    if Lookup(t.space, p) != Some(f) {
      UnmapRefs(t, p);
      MappedReferenced(t, p);
    }
  }

  lemma LookupTable(m: Space, p: nat)
    ensures Lookup(m, p).Some? ==> TableAt(m, Pdx(p)).Some?
  {
  }

  lemma WithTableRefs(s: State, d: nat)
    requires Inv(s) && d < s.space.limit && (TableAt(s.space, d).Some? || s.free != [])
    ensures var t := WithTable(s, d);
            && t.pins == s.pins && t.held == s.held
            && if TableAt(s.space, d).Some? then t == s
               else s.free[0] < |s.refs| && t.refs == s.refs[s.free[0] := 1] && t.free == s.free[1..]
  {
    if TableAt(s.space, d).None? { assert s.free[0] in s.free; }
  }

  // ---------------------------------------------------------------- what mapping refines

  /** Mapping a frame that is not free makes the page translate to it and changes no other
      translation; it fails exactly when a table is needed and no frame is left, and the
      reference counts stay conserved, whether the page was unmapped, mapped to another frame
      or mapped to the same one. */
  lemma MapFrameRefines(s: State, f: Frame, p: nat, perm: nat)
    requires Inv(s) && Pdx(p) < s.space.limit && Mappable(s, f) && perm < PAGE_SIZE
    ensures MapOf(s, f, p, perm).NoMemory? <==> TableAt(s.space, Pdx(p)).None? && s.free == []
    ensures match MapOf(s, f, p, perm)
            case NoMemory => true
            case Mapped(t) =>
              && Inv(t) && t.space.limit == s.space.limit
              && forall q: nat | Pdx(q) < s.space.limit ::
                   Lookup(t.space, q) == if q == p then Some(f) else Lookup(s.space, q)
  {
    if TableAt(s.space, Pdx(p)).Some? || s.free != [] {
      WithTableKeeps(s, Pdx(p));
      var t := WithTable(s, Pdx(p));
      UnmapKeeps(t, p);
      hide Inv, WithTable, Unmap, Put, Mappable, Lookup, TableAt, Pdx;
      if Lookup(t.space, p) != Some(f) {
        UnmapExact(t, p);
        UnmapMappable(t, p, f);
        var u := Unmap(t, p);
        MappableBound(u, f);
        PutExact(u, f, p, perm);
        PutKeeps(u, f, p, perm);
      }
    }
  }

  lemma MappableBound(s: State, f: Frame)
    requires Mappable(s, f)
    ensures f < |s.refs|
  {
  }

  /** Unmapping removes exactly one page from the map. */
  lemma UnmapRefines(s: State, p: nat)
    requires Inv(s) && Pdx(p) < s.space.limit
    ensures var t := Unmap(s, p);
            && Inv(t) && t.space.limit == s.space.limit
            && forall q: nat | Pdx(q) < s.space.limit ::
                 Lookup(t.space, q) == if q == p then None else Lookup(s.space, q)
  {
    UnmapKeeps(s, p);
    UnmapExact(s, p);
  }

  // ---------------------------------------------------------------- runs

  datatype Op =
    | Allocate
    | Free(f: Frame)
    | Map(f: Frame, p: nat, perm: nat)
    | Remove(p: nat)

  /** The operations a caller may perform. */
  ghost predicate Allowed(s: State, op: Op) {
    match op
    case Allocate => true
    case Free(f) => f in s.held
    case Map(f, p, perm) => Mappable(s, f) && Pdx(p) < s.space.limit && perm < PAGE_SIZE
    case Remove(p) => Pdx(p) < s.space.limit
  }

  /** One operation; an allocation or a mapping without memory leaves the state alone. */
  function Step(s: State, op: Op): State
    requires op.Map? ==> op.perm < PAGE_SIZE
  {
    match op
    case Allocate => Take(s)
    case Free(f) => GiveBack(s, f)
    case Map(f, p, perm) => (match MapOf(s, f, p, perm) case NoMemory => s case Mapped(t) => t)
    case Remove(p) => Unmap(s, p)
  }

  /** The same operation on a flat map from pages to frames. */
  function FlatStep(m: map<nat, Frame>, op: Op, memory: bool): map<nat, Frame> {
    match op
    case Allocate => m
    case Free(_) => m
    case Map(f, p, _) => if memory then m[p := f] else m
    case Remove(p) => m - {p}
  }

  /** Whether a mapping in state s finds the memory it needs. */
  predicate HasMemory(s: State, op: Op) {
    op.Map? ==> TableAt(s.space, Pdx(op.p)).Some? || s.free != []
  }

  ghost predicate Implements(s: State, m: map<nat, Frame>) {
    forall p: nat | Pdx(p) < s.space.limit ::
      Lookup(s.space, p) == if p in m then Some(m[p]) else None
  }

  lemma StepRefines(s: State, op: Op, m: map<nat, Frame>)
    requires Inv(s) && Allowed(s, op) && Implements(s, m)
    ensures Inv(Step(s, op)) && Implements(Step(s, op), FlatStep(m, op, HasMemory(s, op)))
  {
    hide Inv, Lookup, TableAt, Pdx, MapOf, Unmap;
    match op
    case Allocate => if s.free != [] { TakeKeeps(s); }
    case Free(f) => GiveBackKeeps(s, f);
    case Map(f, p, perm) => MapFrameRefines(s, f, p, perm);
    case Remove(p) => UnmapRefines(s, p);
  }

  /** One allowed operation takes s to t. */
  ghost predicate Performs(s: State, op: Op, t: State) {
    Allowed(s, op) && t == Step(s, op)
  }

  /** A run: operation i takes state i to state i + 1. */
  ghost predicate Run(states: seq<State>, ops: seq<Op>) {
    && |states| == |ops| + 1
    && forall i | 0 <= i < |ops| :: Performs(states[i], ops[i], states[i + 1])
  }

  /** The flat map after the first i operations of a run. */
  function FlatAfter(states: seq<State>, ops: seq<Op>, m: map<nat, Frame>, i: nat): map<nat, Frame>
    requires i <= |ops| <= |states|
    decreases i
  {
    if i == 0 then m
    else FlatStep(FlatAfter(states, ops, m, i - 1), ops[i - 1], HasMemory(states[i - 1], ops[i - 1]))
  }

  /** At every point of a run the two levels implement the flat map, every frame's count is
      its boot pins plus the entries that name it, and the free list holds exactly the frames
      without references that no caller holds, each once. */
  lemma {:induction false} RunRefines(states: seq<State>, ops: seq<Op>, m: map<nat, Frame>, i: nat)
    requires Run(states, ops) && Inv(states[0]) && Implements(states[0], m) && i <= |ops|
    ensures Inv(states[i]) && Implements(states[i], FlatAfter(states, ops, m, i))
    ensures FreeOk(states[i].free, states[i].refs, states[i].held)
    ensures Counted(states[i].space, states[i].refs, states[i].pins)
    decreases i
  {
    hide SpaceOk, FreeOk, Counted, Implements, Step, FlatStep, HasMemory;
    if i == 0 {
    } else {
      RunRefines(states, ops, m, i - 1);
      assert Performs(states[i - 1], ops[i - 1], states[i]);
      StepRefines(states[i - 1], ops[i - 1], FlatAfter(states, ops, m, i - 1));
    }
  }

  /** n has the tables of m, and its pages name frames that pages of m name, or f. */
  lemma SeparateWith(m: Space, n: Space, f: Frame)
    requires n.limit == m.limit && n.dir == m.dir && Separate(m) && f != m.dir && !IsTable(m, f)
    requires forall d: nat | d < m.limit :: TableAt(n, d) == TableAt(m, d)
    requires forall p: nat | Pdx(p) < m.limit :: Lookup(n, p) in {None, Some(f), Lookup(m, p)}
    ensures Separate(n)
  {
    hide Pdx, Lookup, TableAt;
    assert forall g :: IsTable(n, g) <==> IsTable(m, g);
  }

  /** A new table is a frame that no page names. */
  lemma WithTableSeparate(s: State, d: nat, f: Frame)
    requires Inv(s) && d < s.space.limit && (TableAt(s.space, d).Some? || s.free != []) && Separate(s.space)
    requires Mappable(s, f) && f != s.space.dir && !IsTable(s.space, f)
    ensures var t := WithTable(s, d);
            Separate(t.space) && t.space.dir == s.space.dir && !IsTable(t.space, f)
  {
    if TableAt(s.space, d).None? {
      var t := s.free[0];
      assert t in s.free;
      FreeUnused(s, t);
      AddTableExact(s.space, d, t);
      var n := AddTable(s.space, d, t);
      hide Pdx, TableAt, AddTable, Inv;
      assert forall g :: IsTable(n, g) ==> IsTable(s.space, g) || g == t;
    }
  }

  lemma MapSeparate(s: State, f: Frame, p: nat, perm: nat)
    requires Inv(s) && Separate(s.space) && Mappable(s, f) && Pdx(p) < s.space.limit && perm < PAGE_SIZE
    requires f != s.space.dir && !IsTable(s.space, f) && MapOf(s, f, p, perm).Mapped?
    ensures Separate(MapOf(s, f, p, perm).state.space)
  {
    hide Inv, WithTable, Unmap, Put, Mappable, Lookup, TableAt, Pdx, Separate, IsTable;
    WithTableKeeps(s, Pdx(p));
    WithTableSeparate(s, Pdx(p), f);
    var t := WithTable(s, Pdx(p));
    if Lookup(t.space, p) != Some(f) {
      UnmapKeeps(t, p);
      UnmapExact(t, p);
      MappableBound(t, f);
      PutExact(Unmap(t, p), f, p, perm);
      SeparateWith(t.space, Put(Unmap(t, p), f, p, perm).space, f);
    }
  }

  /** As long as neither a table nor the directory is mapped as data, tables, mapped frames and
      free frames are pairwise disjoint, and every operation keeps them so. */
  lemma StepSeparate(s: State, op: Op)
    requires Inv(s) && Allowed(s, op) && Separate(s.space)
    requires op.Map? ==> op.f != s.space.dir && !IsTable(s.space, op.f)
    ensures Inv(Step(s, op)) && Separate(Step(s, op).space)
    ensures forall f | f in s.free :: Unused(s.space, f)
  {
    forall f | f in s.free
      ensures Unused(s.space, f)
    {
      FreeUnused(s, f);
    }
    match op
    case Allocate => if s.free != [] { TakeKeeps(s); }
    case Free(f) => GiveBackKeeps(s, f);
    case Map(f, p, perm) =>
      MapFrameRefines(s, f, p, perm);
      if MapOf(s, f, p, perm).Mapped? { MapSeparate(s, f, p, perm); }
    case Remove(p) =>
      UnmapKeeps(s, p);
      DropSeparate(s, p);
  }

  lemma DropSeparate(s: State, p: nat)
    requires Inv(s) && Separate(s.space) && Pdx(p) < s.space.limit
    ensures Separate(Unmap(s, p).space)
  {
    UnmapExact(s, p);
    var n := Unmap(s, p).space;
    hide Inv, Unmap, Pdx, Lookup, TableAt;
    assert forall g :: IsTable(n, g) <==> IsTable(s.space, g);
  }

  // ---------------------------------------------------------------- the code

  /** Reading the entry of a page in its table tells whether and to what it is mapped. */
  lemma EntryRead(s: State, p: nat)
    requires Inv(s) && Pdx(p) < s.space.limit && TableAt(s.space, Pdx(p)).Some?
    ensures var e := Word(s.space.ram, TableAt(s.space, Pdx(p)).value, Ptx(p));
            Lookup(s.space, p) == if Present(e) then Some(FrameOf(e)) else None
    ensures Lookup(s.space, p).Some? ==> Lookup(s.space, p).value < |s.refs| && 0 < s.refs[Lookup(s.space, p).value]
  {
    UnmapKeeps(s, p);
  }

  lemma UnmapNothing(s: State, p: nat)
    ensures Lookup(s.space, p).None? ==> Unmap(s, p) == s
  {
  }

  lemma WriteEntryWord(m: Space, p: nat, e: nat)
    ensures TableAt(m, Pdx(p)).Some? ==>
              WriteEntry(m, p, e) == m.(ram := SetWord(m.ram, TableAt(m, Pdx(p)).value, Ptx(p), e))
  {
  }

  /** The references of frame f at boot, which keeps frame 0 and those in [hole, boot). */
  function BootPins(f: int, hole: nat, boot: nat): nat {
    if f == 0 || hole <= f < boot then 1 else 0
  }

  lemma NothingMapped(m: Space)
    requires forall d | 0 <= d < m.limit :: Word(m.ram, m.dir, d) == 0
    ensures forall f :: Users(m, f) == {} && TableUsers(m, f) == {}
    ensures forall p: nat | Pdx(p) < m.limit :: Lookup(m, p) == None
  {
    forall f
      ensures Users(m, f) == {}
    {
      forall p: nat
        ensures p !in Users(m, f)
      {
        PageBelow(p, m.limit);
      }
    }
  }

  class Mmu {
    var ram: Ram
    var refs: seq<nat>
    var free: seq<Frame>
    const dir: Frame
    const limit: nat
    ghost const pins: seq<nat>
    ghost var held: set<Frame>

    /** initialize_paging: frame 0, the I/O hole [hole, extended) and the boot data
        [extended, boot) are pinned, every other frame is freed.  The directory lies in the boot
        data, and none of its managed entries is set. */
    constructor InitializePaging(dir: Frame, limit: nat, ram: Ram, hole: nat, extended: nat, boot: nat)
      requires 1 <= hole <= extended <= dir < boot <= |ram| && Shape(Space(dir, limit, ram))
      requires forall d | 0 <= d < limit :: Word(ram, dir, d) == 0
      ensures Valid() && held == {} && refs == pins
      ensures this.dir == dir && this.limit == limit && this.ram == ram
      ensures forall f | 0 <= f < |ram| :: refs[f] == if f == 0 || hole <= f < boot then 1 else 0
      ensures forall f :: f in free <==> 1 <= f < hole || boot <= f < |ram|
      ensures forall i, j | 0 <= i < j < |free| :: free[j] < free[i]
      ensures forall p: nat | Pdx(p) < limit :: Lookup(S().space, p) == None
    {
      this.dir, this.limit, this.ram := dir, limit, ram;
      refs := seq<nat>(|ram|, f => BootPins(f, hole, boot));
      pins := seq<nat>(|ram|, f => BootPins(f, hole, boot));
      free := [];
      held := {};
      new;
      for i := 1 to hole
        invariant this.ram == ram && refs == pins && held == {}
        invariant Distinct(free) && forall f :: f in free <==> 1 <= f < i
        invariant forall k, j | 0 <= k < j < |free| :: free[j] < free[k]
      {
        InsertDistinct(i, free);
        assert forall j | 0 <= j < |free| :: free[j] in free;
        free := [i] + free;
      }
      for i := boot to |ram|
        invariant this.ram == ram && refs == pins && held == {}
        invariant Distinct(free) && forall f :: f in free <==> 1 <= f < hole || boot <= f < i
        invariant forall k, j | 0 <= k < j < |free| :: free[j] < free[k]
      {
        InsertDistinct(i, free);
        assert forall j | 0 <= j < |free| :: free[j] in free;
        free := [i] + free;
      }
      NothingMapped(S().space);
    }

    ghost function S(): State
      reads this
    {
      State(Space(dir, limit, ram), free, refs, pins, held)
    }

    ghost predicate Valid()
      reads this
    {
      Inv(S())
    }

    /** None is E_NO_MEM. */
    method AllocateFrame() returns (r: Option<Frame>)
      requires Valid()
      modifies this`free, this`refs, this`held
      ensures Valid()
      ensures if old(free) == [] then r == None && S() == old(S())
              else r == Some(old(free)[0]) && old(free)[0] < |old(refs)| && S() == Take(old(S()))
      ensures r.Some? ==>
                free == old(free)[1..] && refs == old(refs) && refs[r.value] == 0 && held == old(held) + {r.value}
    {
      if free == [] { return None; }
      TakeKeeps(S());
      r := Some(free[0]);
      refs := refs[free[0] := 0];
      held := held + {free[0]};
      free := free[1..];
    }

    method FreeFrame(f: Frame)
      requires Valid() && f in held
      modifies this`free, this`held
      ensures Valid() && S() == GiveBack(old(S()), f)
      ensures free == [f] + old(free) && held == old(held) - {f}
    {
      GiveBackKeeps(S(), f);
      free := [f] + free;
      held := held - {f};
    }

    method DecrementReferences(f: Frame)
      requires f < |refs| && 0 < refs[f]
      modifies this`free, this`refs
      ensures S() == Drop(old(S()), f)
      ensures |refs| == |old(refs)| && refs[f] == old(refs)[f] - 1
      ensures forall g | 0 <= g < |refs| && g != f :: refs[g] == old(refs)[g]
      ensures free == if old(refs)[f] == 1 then [f] + old(free) else old(free)
    {
      refs := refs[f := refs[f] - 1];
      if refs[f] == 0 {
        free := [f] + free;
      }
    }

    /** The table of page p: E_NO_MEM (ok false) when it is to be created and no frame is left,
        and otherwise the table, if there is one. */
    method GetPageTable(p: nat, create: bool) returns (ok: bool, table: Option<Frame>)
      requires Valid() && Pdx(p) < limit
      modifies this`ram, this`refs, this`free, this`held
      ensures ok <==> !create || TableAt(old(S()).space, Pdx(p)).Some? || old(free) != []
      ensures table == if ok then TableAt(S().space, Pdx(p)) else None
      ensures create && ok ==> S() == WithTable(old(S()), Pdx(p))
      ensures create && ok && TableAt(old(S()).space, Pdx(p)).None? ==>
                && table == Some(old(free)[0]) && free == old(free)[1..]
                && old(free)[0] < |old(refs)| && refs == old(refs)[old(free)[0] := 1]
      ensures !create || !ok ==> S() == old(S())
      ensures Valid()
    {
      hide SpaceOk, Counted, Unused, SetWord, ZeroFrame;
      var pde := Word(ram, dir, Pdx(p));
      if pde == 0 {
        if create {
          ghost var s := S();
          if free != [] { WithTableKeeps(s, Pdx(p)); FreeUnused(s, free[0]); AddTableExact(s.space, Pdx(p), free[0]); }
          var r := AllocateFrame();
          if r.None? { return false, None; }
          ram := ZeroFrame(ram, r.value);
          refs := refs[r.value := 1];
          held := held - {r.value};
          ram := SetWord(ram, dir, Pdx(p), Construct(r.value, TABLE_PERM));
          return true, r;
        }
        return true, None;
      }
      return true, Some(FrameOf(pde));
    }

    /** The frame of page p, if it is mapped. */
    method GetFrameInfo(p: nat) returns (r: Option<Frame>, table: Option<Frame>)
      requires Valid() && Pdx(p) < limit
      modifies this`ram, this`refs, this`free, this`held
      ensures S() == old(S()) && Valid()
      ensures r == Lookup(S().space, p) && table == TableAt(S().space, Pdx(p))
    {
      var ok;
      ok, table := GetPageTable(p, false);
      if table.Some? {
        var pte := Word(ram, table.value, Ptx(p));
        if pte != 0 { return Some(FrameOf(pte)), table; }
      }
      return None, table;
    }

    method UnmapFrame(p: nat)
      requires Valid() && Pdx(p) < limit
      modifies this`ram, this`refs, this`free, this`held
      ensures Valid() && S() == Unmap(old(S()), p)
      ensures SameWords(old(S()).space, S().space, p, limit) && PageWord(S().space, p) == 0
      ensures Unreferenced(old(S()), S(), Lookup(old(S()).space, p))
    {
      hide SameWords, PageWord, Unreferenced;
      UnmapKeeps(S(), p);
      UnmapWords(S(), p);
      UnmapRefs(S(), p);
      var r, table := GetFrameInfo(p);
      if r.Some? {
        DecrementReferences(r.value);
        ram := SetWord(ram, table.value, Ptx(p), 0);
      }
    }

    /** False is E_NO_MEM. */
    method MapFrame(f: Frame, p: nat, perm: nat) returns (ok: bool)
      requires Valid() && Pdx(p) < limit && Mappable(S(), f) && perm < PAGE_SIZE
      modifies this`ram, this`refs, this`free, this`held
      ensures Valid()
      ensures match MapOf(old(S()), f, p, perm)
              case NoMemory => !ok && S() == old(S())
              case Mapped(t) => ok && S() == t
      ensures ok ==> forall q: nat | Pdx(q) < limit ::
                       Lookup(S().space, q) == if q == p then Some(f) else Lookup(old(S()).space, q)
      ensures !ok <==> TableAt(old(S()).space, Pdx(p)).None? && old(free) == []
      ensures ok ==>
                && SameWords(old(S()).space, S().space, p, p / 1024)
                && PageWord(S().space, p)
                == (if Lookup(old(S()).space, p) == Some(f) then PageWord(old(S()).space, p)
                    else f * 4096 + if perm % 2 == 1 then perm else perm + 1)
                && Word(ram, dir, p / 1024)
                == if Word(old(ram), dir, p / 1024) == 0 then old(free)[0] * 4096 + 7 else Word(old(ram), dir, p / 1024)
      ensures ok ==> Recounted(old(S()), S(), f, p)
    {
      hide Inv, Lookup, TableAt, WithTable, Unmap, Mappable, Pdx, Ptx, Construct, Present, FrameOf, Word, SetWord;
      hide PageWord, SameWords, Recounted;
      ghost var s := S();
      MapFrameRefines(s, f, p, perm);
      if MapOf(s, f, p, perm).Mapped? { MapWords(s, f, p, perm); MapRefs(s, f, p, perm); }
      MappableBound(s, f);
      var table;
      ok, table := GetPageTable(p, true);
      if !ok { return; }
      ghost var t := S();
      WithTableKeeps(s, Pdx(p));
      EntryRead(t, p);
      var pte := Word(ram, table.value, Ptx(p));
      if Present(pte) {
        if FrameOf(pte) == f { return true; }
        UnmapFrame(p);
      }
      UnmapExact(t, p);
      UnmapNothing(t, p);
      WriteEntryWord(S().space, p, Construct(f, perm));
      refs := refs[f := refs[f] + 1];
      held := held - {f};
      ram := SetWord(ram, table.value, Ptx(p), Construct(f, perm));
      return true;
    }

    method CheckVa2Pa(p: nat) returns (pa: nat)
      requires Valid() && Pdx(p) < limit
      ensures pa == match Lookup(S().space, p) case None => NO_MAPPING case Some(f) => f * PAGE_SIZE
      ensures pa == if PageWord(S().space, p) % 2 == 1 then PageWord(S().space, p) / 4096 * 4096 else 0xFFFF_FFFF
    {
      EntryIsWord(S().space, p);
      Va2PaIsLookup(S().space, p);
      var pde := Word(ram, dir, Pdx(p));
      if !Present(pde) { return NO_MAPPING; }
      var pte := Word(ram, FrameOf(pde), Ptx(p));
      if !Present(pte) { return NO_MAPPING; }
      return FrameOf(pte) * PAGE_SIZE;
    }

    /** The walk over the free list. */
    method CalculateFreeFrames() returns (count: nat)
      requires Valid()
      ensures count == |set f: nat | f < |refs| && refs[f] == 0 && f !in held|
    {
      count := 0;
      ghost var seen: set<nat> := {};
      for i := 0 to |free|
        invariant seen == set f | f in free[..i]
        invariant count == |seen|
      {
        assert free[i] !in free[..i];
        seen := seen + {free[i]};
        count := count + 1;
      }
      assert free[..|free|] == free;
      assert seen == set f: nat | f < |refs| && refs[f] == 0 && f !in held;
    }
  }
}
