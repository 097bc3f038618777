/** memory_manager.c at the repository's root: physical frames, on-demand page tables, the
    page file behind them, and the working set of the running environment. */
module MemoryManager {
  import opened Common
  import opened MemoryState
  import opened Freeing

  class Machine {
    const refs: array<nat>          // frames_info[].references
    const ram: array<Content>       // the content of every frame
    const ws: array<WsEntry>        // ptr_pageWorkingSet
    const fileRoom: nat             // how many pages the page file can hold
    var free: seq<Frame>            // free_frame_list
    var tables: map<nat, Frame>
    var ptes: map<Page, Pte>
    var pageFile: map<Page, Option<Content>>
    var last: nat                   // page_last_WS_index
    var hand: nat                   // lastClockIndex

    /** Memory after initialize_paging, with an environment that has no page yet: the boot keeps
        frames 0 to 2, the I/O hole [hole, extended) and its own data [extended, boot). */
    constructor (frames: nat, hole: nat, extended: nat, boot: nat, slots: nat, fileRoom: nat)
      requires 3 <= hole <= extended <= boot <= frames && 0 < slots
      ensures Valid() && this.fileRoom == fileRoom && hand == 0
      ensures tables == map[] && ptes == map[] && pageFile == map[]
      ensures ws.Length == slots && refs.Length == frames
      ensures forall f | 0 <= f < frames :: refs[f] == if f < 3 || hole <= f < boot then 1 else 0
      ensures forall f :: f in free <==> 3 <= f < hole || boot <= f < frames
      ensures forall i, j | 0 <= i < j < |free| :: free[j] < free[i]
      ensures last == 0 && forall i | 0 <= i < slots :: ws[i] == WsEntry(0, true, 0)
      ensures fresh(refs) && fresh(ram) && fresh(ws)
    {
      refs := new nat[frames](f => if f < 3 || hole <= f < boot then 1 else 0);
      ram := new Content[frames](_ => []);
      ws := new WsEntry[slots](_ => VACANT);
      this.fileRoom := fileRoom;
      free, tables, ptes, pageFile, last, hand := [], map[], map[], map[], 0, 0;
      new;
      FreeFrames(3, hole);
      FreeFrames(boot, frames);
      assert Backed(S()) && WsMatches(S());
    }

    /** Frees the frames [lo, hi), which nobody has used, at boot. */
    method FreeFrames(lo: nat, hi: nat)
      requires lo <= hi && Distinct(free) && (forall f | f in free :: f < lo)
      requires forall i, j | 0 <= i < j < |free| :: free[j] < free[i]
      modifies this`free
      ensures forall i, j | 0 <= i < j < |free| :: free[j] < free[i]
      ensures S() == old(S()).(free := free) && Distinct(free)
      ensures forall f :: f in free <==> f in old(free) || lo <= f < hi
    {
      for i := lo to hi
        invariant Distinct(free) && forall f :: f in free <==> f in old(free) || lo <= f < i
        invariant forall i, j | 0 <= i < j < |free| :: free[j] < free[i]
      {
        InsertDistinct(i, free);
        assert forall j | 0 <= j < |free| :: free[j] in free;
        free := [i] + free;
      }
    }

    ghost function S(): State
      reads this, refs, ram, ws
    {
      State(free, refs[..], ram[..], tables, ptes, pageFile, ws[..], last, hand)
    }

    ghost predicate Valid()
      reads this, refs, ram, ws
    {
      Inv(S())
    }

    // -------------------------------------------------------------- frames

    /** None stands for the panic of a kernel without memory. */
    method AllocateFrame() returns (r: Option<Frame>)
      requires free != [] ==> free[0] < refs.Length
      modifies this`free, refs
      ensures old(free) == [] ==> r == None && S() == old(S())
      ensures old(free) != [] ==>
                && r == Some(old(free)[0]) && free == old(free)[1..] && refs[..] == old(refs[..])[old(free)[0] := 0]
                && S() == Take(old(S()))
    {
      if free == [] { return None; }
      r := Some(free[0]);
      refs[free[0]] := 0;
      free := free[1..];
    }

    method FreeFrame(f: Frame)
      requires f < refs.Length
      modifies this`free, refs
      ensures S() == old(S().(refs := S().refs[f := 0], free := [f] + free))
    {
      refs[f] := 0;
      free := [f] + free;
    }

    method DecrementReferences(f: Frame)
      requires f < refs.Length && 0 < refs[f]
      modifies this`free, refs
      ensures refs[f] == old(refs[f]) - 1
      ensures forall g | 0 <= g < refs.Length && g != f :: refs[g] == old(refs[g])
      ensures free == if old(refs[f]) == 1 then [f] + old(free) else old(free)
      ensures S() == Drop(old(S()), f)
    {
      refs[f] := refs[f] - 1;
      if refs[f] == 0 {
        FreeFrame(f);
        assert refs[..] == old(refs[..])[f := 0];
      }
    }

    // -------------------------------------------------------------- page tables

    /** True when the directory has a table for the page. */
    method GetPageTable(p: Page) returns (inMemory: bool)
      ensures inMemory <==> TableOf(p) in tables
    {
      inMemory := TableOf(p) in tables;
    }

    /** False stands for the panic when no frame is left for the table. */
    method CreatePageTable(p: Page) returns (ok: bool)
      requires free != [] ==> free[0] < refs.Length
      modifies this`free, this`tables, refs
      ensures ok <==> old(free) != []
      ensures ok ==> tables == old(tables)[TableOf(p) := old(free)[0]] && free == old(free)[1..]
      ensures ok ==> refs[..] == old(refs[..])[old(free)[0] := 1]
      ensures S() == if ok then NewTable(old(S()), TableOf(p)) else old(S())
    {
      var r := AllocateFrame();
      if r.None? { return false; }
      refs[r.value] := refs[r.value] + 1;
      tables := tables[TableOf(p) := r.value];
      assert refs[..] == old(refs[..])[r.value := 1];
      return true;
    }

    method GetFrameInfo(p: Page) returns (r: Option<Frame>)
      requires Tabled(S())
      ensures r == if p in ptes then Some(ptes[p].frame) else None
    {
      var inMemory := GetPageTable(p);
      if inMemory && p in ptes { return Some(ptes[p].frame); }
      return None;
    }

    method UnmapFrame(p: Page)
      requires Tabled(S())
      requires p in ptes ==> ptes[p].frame < refs.Length && 0 < refs[ptes[p].frame]
      modifies this`free, this`ptes, refs
      ensures S() == Unmap(old(S()), p)
      ensures ptes == old(ptes) - {p}
      ensures p !in old(ptes) ==> refs[..] == old(refs[..]) && free == old(free)
      ensures p in old(ptes) ==>
                var f := old(ptes)[p].frame;
                && refs[f] == old(refs[f]) - 1
                && free == if old(refs[f]) == 1 then [f] + old(free) else old(free)
    {
      var r := GetFrameInfo(p);
      if r.Some? {
        DecrementReferences(r.value);
        ptes := ptes - {p};
      }
    }

    /** Maps a frame with clean permission bits; false stands for the panic when a page table
        is needed and no frame is left for it. */
    method MapFrame(f: Frame, p: Page) returns (ok: bool)
      requires f < refs.Length && (TableOf(p) !in tables && free != [] ==> free[0] < refs.Length)
      requires Tabled(S())
      requires p in ptes ==> ptes[p].frame < refs.Length && 0 < refs[ptes[p].frame]
      modifies this`free, this`tables, this`ptes, refs
      ensures ok <==> TableOf(p) in old(tables) || old(free) != []
      ensures S() == if ok then MemoryState.MapFrame(old(S()), f, p) else old(S())
      ensures ok ==> tables == if TableOf(p) in old(tables) then old(tables)
                               else old(tables)[TableOf(p) := old(free)[0]]
      ensures ok ==> if p in old(ptes) && old(ptes)[p].frame == f then S() == old(S())
                     else ptes == old(ptes)[p := Pte(f, false, false)]
      ensures p in old(ptes) && old(ptes)[p].frame != f ==>
                var g := old(ptes)[p].frame;
                && refs[f] == old(refs[f]) + 1 && refs[g] == old(refs[g]) - 1
                && free == if old(refs[g]) == 1 then [g] + old(free) else old(free)
      ensures ok && p !in old(ptes) && TableOf(p) in old(tables) ==>
                refs[f] == old(refs[f]) + 1 && free == old(free)
      ensures ok && TableOf(p) !in old(tables) && old(free)[0] != f ==>
                refs[f] == old(refs[f]) + 1 && refs[old(free)[0]] == 1 && free == old(free)[1..]
    {
      var inMemory := GetPageTable(p);
      if !inMemory {
        ok := CreatePageTable(p);
        if !ok { return; }
      }
      if p in ptes {
        if ptes[p].frame == f { return true; }
        UnmapFrame(p);
      }
      refs[f] := refs[f] + 1;
      ptes := ptes[p := Pte(f, false, false)];
      return true;
    }

    /** The used and modified bits, both clear when the page has no entry. */
    method GetPagePermissions(p: Page) returns (used: bool, modified: bool)
      ensures used == (p in ptes && ptes[p].used) && modified == (p in ptes && ptes[p].modified)
    {
      if p in ptes { return ptes[p].used, ptes[p].modified; }
      return false, false;
    }

    method ClearUsedBit(p: Page)
      modifies this`ptes
      ensures S() == ClearUsed(old(S()), p)
    {
      if p in ptes { ptes := ptes[p := ptes[p].(used := false)]; }
    }

    // -------------------------------------------------------------- page file

    /** pf_add_empty_env_page; false when the page is new and the file is full. */
    method PfAddEmpty(p: Page, clear: bool) returns (ok: bool)
      modifies this`pageFile
      ensures ok <==> p in old(pageFile) || |old(pageFile)| < fileRoom
      ensures S() == old(S()).(pageFile := if !ok then old(pageFile)
                                           else if clear then old(pageFile)[p := Some(ZeroPage())]
                                           else if p in old(pageFile) then old(pageFile)
                                           else old(pageFile)[p := None])
    {
      if p !in pageFile && fileRoom <= |pageFile| { return false; }
      if clear {
        pageFile := pageFile[p := Some(ZeroPage())];
      } else if p !in pageFile {
        pageFile := pageFile[p := None];
      }
      return true;
    }

    /** pf_update_env_page: the copy becomes the content of the frame. */
    method PfUpdate(p: Page, f: Frame)
      requires f < ram.Length
      modifies this`pageFile
      ensures S() == old(S()).(pageFile := old(pageFile)[p := Some(ram[f])])
    {
      pageFile := pageFile[p := Some(ram[f])];
    }

    /** pf_read_env_page: fills the frame mapped at p, which stays clean; false when the page
        file does not hold the page. */
    method PfRead(p: Page, junk: Content) returns (ok: bool)
      requires p in ptes && ptes[p].frame < ram.Length
      modifies ram
      ensures ok <==> p in pageFile
      ensures S() == if ok then old(S()).(ram := old(ram[..])[ptes[p].frame := CopyOr(pageFile[p], junk)])
                     else old(S())
    {
      if p !in pageFile { return false; }
      ram[ptes[p].frame] := CopyOr(pageFile[p], junk);
      return true;
    }

    method PfRemove(p: Page)
      modifies this`pageFile
      ensures S() == old(S()).(pageFile := old(pageFile) - {p})
    {
      pageFile := pageFile - {p};
    }

    // -------------------------------------------------------------- working set

    /** env_page_ws_get_size: the number of occupied slots. */
    method WsGetSize() returns (size: nat)
      ensures size <= ws.Length
      ensures size == |set i | 0 <= i < ws.Length && !ws[i].empty|
      ensures size == ws.Length <==> Full(ws[..])
    {
      size := 0;
      ghost var seen: set<int> := {};
      for i := 0 to ws.Length
        invariant seen == set j | 0 <= j < i && !ws[j].empty
        invariant size == |seen| <= i
        invariant size == i <==> forall j | 0 <= j < i :: !ws[j].empty
      {
        if !ws[i].empty {
          size := size + 1;
          seen := seen + {i};
        }
      }
    }

    method WsSetEntry(i: nat, p: Page)
      requires i < ws.Length
      modifies ws
      ensures S() == old(S()).(ws := old(ws[..])[i := WsEntry(p, false, NEW_STAMP)])
    {
      ws[i] := WsEntry(p, false, NEW_STAMP);
    }

    method WsClearEntry(i: nat)
      requires i < ws.Length
      modifies ws
      ensures S() == old(S()).(ws := old(ws[..])[i := WsEntry(0, true, 0)])
    {
      ws[i] := VACANT;
    }

    /** Both page_last_WS_index and the clock hand move to the slot after i. */
    method MoveHands(i: nat)
      requires i < ws.Length
      modifies this`last, this`hand
      ensures S() == old(S()).(last := Wrap(i + 1, ws.Length), hand := Wrap(i + 1, ws.Length))
    {
      last := Wrap(i + 1, ws.Length);
      hand := last;
    }

    // -------------------------------------------------------------- user heap, kernel side

    /** allocateMem: cleared page-file copies for the pages of a range and nothing in memory.
        Only the answer for the last page decides whether the kernel panics (ok is false). */
    method AllocateMem(lo: Page, size: nat) returns (ok: bool)
      modifies this`pageFile
      ensures S() == old(S()).(pageFile := Reserved(old(pageFile), lo, PagesUp(size), fileRoom))
      ensures forall p | p in pageFile && p !in old(pageFile) ::
                lo <= p < lo + PagesUp(size) && pageFile[p].Some? && Zeroed(pageFile[p].value)
      ensures ok <==> size == 0 || lo + PagesUp(size) - 1 in pageFile
      ensures ok <==> size == 0 || lo + PagesUp(size) - 1 in old(pageFile)
                      || HasRoom(old(pageFile), lo, PagesUp(size), fileRoom)
    {
      hide HasRoom, Reserved;
      ReservedUnfold(pageFile, lo, 0, fileRoom);
      ok := true;
      var i, k := 0, 0;
      while i < size
        invariant i == k * PAGE_SIZE && k <= PagesUp(size)
        invariant pageFile == Reserved(old(pageFile), lo, k, fileRoom)
        invariant ok <==> k == 0 || lo + k - 1 in pageFile
        decreases size + PAGE_SIZE - i
      {
        ReservedUnfold(old(pageFile), lo, k + 1, fileRoom);
        ok := PfAddEmpty(lo + k, true);
        i, k := i + PAGE_SIZE, k + 1;
      }
      ReservedZeroed(old(pageFile), lo, k, fileRoom);
      if 0 < k { LastAnswer(old(pageFile), lo, k, fileRoom); }
    }

    method FreeAllPages(lo: Page, noOfPages: nat)
      modifies this`pageFile
      ensures S() == Forget(old(S()), lo, lo + noOfPages)
    {
      for i := 0 to noOfPages
        invariant pageFile == Outside(old(pageFile), lo, lo + i)
      {
        PfRemove(lo + i);
      }
    }

    /** One slot of the first loop: a page of the range is unmapped, another is to be kept,
        and the slot is cleared. */
    method VisitSlot(i: nat, lo: Page, size: nat) returns (kept: bool)
      requires FramesOk(S(), {}) && i < ws.Length
      modifies this`free, this`ptes, refs, ws
      ensures kept == Stays(old(ws[i]), lo, lo + PagesUp(size))
      ensures S() == (if Leaves(old(ws[i]), lo, lo + PagesUp(size)) then Unmap(old(S()), old(ws[i]).page)
                      else old(S())).(ws := old(ws[..])[i := VACANT])
    {
      var tempVa := ws[i].page * PAGE_SIZE;
      var isEmptyEntry := ws[i].empty;
      InBytes(ws[i].page, lo, size);
      kept := false;
      if !isEmptyEntry && lo * PAGE_SIZE <= tempVa < lo * PAGE_SIZE + size {
        UnmapFrame(ws[i].page);
      } else if !isEmptyEntry {
        kept := true;
      }
      WsClearEntry(i);
    }

    /** Unmaps the resident pages of a byte range and moves the other entries together. */
    method FreeResidentPagesInTheWorkingSet(lo: Page, size: nat)
      requires FramesOk(S(), {}) && ws.Length != 0
      modifies this`free, this`ptes, this`last, refs, ws
      ensures S() == Release(old(S()), lo, lo + PagesUp(size))
    {
      hide FramesOk, Unmap;
      ghost var s0, hi := S(), lo + PagesUp(size);
      var workingSet: seq<WsEntry> := [];
      for i := 0 to ws.Length
        invariant workingSet == Staying(s0.ws, i, lo, hi)
        invariant S() == UnmapLeaving(s0, s0.ws, i, lo, hi).(ws := ws[..])
        invariant forall j | 0 <= j < i :: ws[j] == VACANT
        invariant forall j | i <= j < ws.Length :: ws[j] == s0.ws[j]
      {
        UnmapLeavingKeeps(s0, s0.ws, i, lo, hi);
        FramesOnly(UnmapLeaving(s0, s0.ws, i, lo, hi), S(), {});
        UnmapWs(UnmapLeaving(s0, s0.ws, i, lo, hi), ws[i].page, ws[..]);
        var entry := ws[i];
        var kept := VisitSlot(i, lo, size);
        if kept { workingSet := workingSet + [entry]; }
      }
      WriteBackEntries(workingSet);
      last := Wrap(|workingSet|, ws.Length);
    }

    /** The second loop: the kept entries fill the first slots. */
    method WriteBackEntries(workingSet: seq<WsEntry>)
      requires |workingSet| <= ws.Length && forall j | 0 <= j < ws.Length :: ws[j] == VACANT
      modifies ws
      ensures ws[..] == workingSet + seq(ws.Length - |workingSet|, _ => VACANT)
    {
      var i := 0;
      while i < |workingSet|
        invariant i <= |workingSet|
        invariant forall j | 0 <= j < ws.Length :: ws[j] == if j < i then workingSet[j] else VACANT
      {
        ws[i] := workingSet[i];
        i := i + 1;
      }
    }

    /** Scans the 1024 entries of table d. */
    method IsTableEmpty(d: nat) returns (empty: bool)
      ensures empty <==> TableEmpty(S(), d)
    {
      var flag := 0;
      while flag < TABLE_ENTRIES && d * TABLE_ENTRIES + flag !in ptes
        invariant flag <= TABLE_ENTRIES
        invariant forall p | d * TABLE_ENTRIES <= p < d * TABLE_ENTRIES + flag :: p !in ptes
      {
        flag := flag + 1;
      }
      empty := flag == TABLE_ENTRIES;
      ScannedTable(S(), d, flag);
    }

    method RemoveIfEmpty(p: Page)
      requires FramesOk(S(), {})
      modifies this`free, this`tables, refs
      ensures S() == DropIfEmpty(old(S()), TableOf(p))
    {
      var inMemory := GetPageTable(p);
      if inMemory {
        var empty := IsTableEmpty(TableOf(p));
        if empty {
          DecrementReferences(tables[TableOf(p)]);
          tables := tables - {TableOf(p)};
        }
      }
    }

    /** Gives back every page table of the range whose 1024 entries are all zero. */
    method RemoveEmptyNonUsedPages(lo: Page, noOfPages: nat)
      requires FramesOk(S(), {})
      modifies this`free, this`tables, refs
      ensures S() == DropEmptyTables(old(S()), lo, noOfPages)
    {
      hide FramesOk, DropIfEmpty, TableOf;
      for i := 0 to noOfPages
        invariant S() == DropEmptyTables(old(S()), lo, i)
      {
        DropEmptyTablesKeeps(old(S()), lo, i);
        RemoveIfEmpty(lo + i);
      }
    }

    /** freeMem on a page-aligned range. */
    method FreeMem(lo: Page, size: nat)
      requires Valid()
      modifies this`pageFile, this`free, this`ptes, this`last, this`tables, refs, ws
      ensures S() == Freed(old(S()), lo, size / PAGE_SIZE, PagesUp(size)) && Valid()
      ensures forall p: nat :: p in ptes <==>
                p in old(ptes) && !(lo * PAGE_SIZE <= p * PAGE_SIZE < lo * PAGE_SIZE + size)
      ensures forall p: nat | p in ptes :: ptes[p] == old(ptes)[p]
      ensures forall p: nat :: p in pageFile <==> p in old(pageFile) && !(lo <= p < lo + size / PAGE_SIZE)
      ensures forall p: nat | p in pageFile :: pageFile[p] == old(pageFile)[p]
      ensures Stable(old(ws[..]), ws[..])
    {
      hide Inv, FramesOk, Forget, Release, DropEmptyTables, Stable;
      FreedRange(S(), lo, size);
      var noOfPages := size / PAGE_SIZE;
      FreedSteps(S(), lo, noOfPages, PagesUp(size));
      FreeAllPages(lo, noOfPages);
      FreeResidentPagesInTheWorkingSet(lo, size);
      RemoveEmptyNonUsedPages(lo, noOfPages);
    }
  }

  /** freeMem in terms of addresses. */
  lemma FreedRange(s: State, lo: Page, size: nat)
    requires Inv(s)
    ensures s.ws != []
    ensures var t := Freed(s, lo, size / PAGE_SIZE, PagesUp(size));
            && (forall p: nat :: p in t.ptes <==>
                  p in s.ptes && !(lo * PAGE_SIZE <= p * PAGE_SIZE < lo * PAGE_SIZE + size))
            && (forall p: nat | p in t.ptes :: t.ptes[p] == s.ptes[p])
            && (forall p: nat :: p in t.pageFile <==> p in s.pageFile && !(lo <= p < lo + size / PAGE_SIZE))
            && (forall p: nat | p in t.pageFile :: t.pageFile[p] == s.pageFile[p])
            && Stable(s.ws, t.ws)
  {
    hide Inv, TablesLeft, Stable, Prefix, Packed, Freed, PagesUp;
    SomeSlot(s);
    WholeAndRest(size);
    FreedExact(s, lo, size / PAGE_SIZE, PagesUp(size));
    forall p: nat
      ensures lo * PAGE_SIZE <= p * PAGE_SIZE < lo * PAGE_SIZE + size <==> lo <= p < lo + PagesUp(size)
    {
      InBytes(p, lo, size);
    }
  }

  /** Unmapping does not look at the working set. */
  lemma UnmapWs(s: State, p: Page, ws: seq<WsEntry>)
    ensures Unmap(s.(ws := ws), p) == Unmap(s, p).(ws := ws)
  {
  }

  lemma ScannedTable(s: State, d: nat, flag: nat)
    requires flag <= TABLE_ENTRIES
    requires forall p | d * TABLE_ENTRIES <= p < d * TABLE_ENTRIES + flag :: p !in s.ptes
    requires flag < TABLE_ENTRIES ==> d * TABLE_ENTRIES + flag in s.ptes
    ensures flag == TABLE_ENTRIES <==> TableEmpty(s, d)
  {
    if flag < TABLE_ENTRIES {
      assert TableOf(d * TABLE_ENTRIES + flag) == d;
    } else {
      assert forall p | p in s.ptes && TableOf(p) == d :: d * TABLE_ENTRIES <= p < d * TABLE_ENTRIES + flag;
    }
  }
}
