/** The memory state behind one environment: physical frames, its page tables, its page
    file and its working set, with what each primitive of memory_manager.c does to it. */
module MemoryState {
  import opened Common

  const TABLE_ENTRIES: nat := 1024

  /** A virtual page number. */
  type Page = nat
  type Content = seq<bv8>

  function ZeroPage(): (c: Content)
    ensures Zeroed(c)
  {
    seq(PAGE_SIZE, _ => 0)
  }

  /** A cleared page: PAGE_SIZE zero bytes. */
  predicate Zeroed(c: Content) {
    |c| == PAGE_SIZE && forall i | 0 <= i < |c| :: c[i] == 0
  }

  /** A present page-table entry of the user part. */
  datatype Pte = Pte(frame: Frame, used: bool, modified: bool)

  datatype WsEntry = WsEntry(page: Page, empty: bool, stamp: nat)

  const VACANT: WsEntry := WsEntry(0, true, 0)
  /** The time stamp of a page that has just been inserted. */
  const NEW_STAMP: nat := 0x8000_0000

  /** tables maps a directory index to the frame that holds its page table, and a page is in
      ptes when its entry in that table is present.  A page-file copy that was added without
      being cleared has no content yet. */
  datatype State = State(
    free: seq<Frame>,
    refs: seq<nat>,
    ram: seq<Content>,
    tables: map<nat, Frame>,
    ptes: map<Page, Pte>,
    pageFile: map<Page, Option<Content>>,
    ws: seq<WsEntry>,
    last: nat,
    hand: nat)

  function TableOf(p: Page): nat { p / TABLE_ENTRIES }

  /** A slot number modulo the size of the working set. */
  function Wrap(i: nat, n: nat): (r: nat)
    requires i <= n && 0 < n
    ensures r == if i < n then i else 0
  {
    i % n
  }

  // ---------------------------------------------------------------- invariants

  /** Every resident page lies in a table that is present. */
  ghost predicate Tabled(s: State) {
    forall p | p in s.ptes :: TableOf(p) in s.tables
  }

  /** A frame behind a page or holding a page table has one reference and one owner. */
  ghost predicate OwnersOk(refs: seq<nat>, tables: map<nat, Frame>, ptes: map<Page, Pte>) {
    && (forall p | p in ptes :: ptes[p].frame < |refs| && refs[ptes[p].frame] == 1)
    && (forall d | d in tables :: tables[d] < |refs| && refs[tables[d]] == 1)
    && (forall p, q | p in ptes && q in ptes && p != q :: ptes[p].frame != ptes[q].frame)
    && (forall d, e | d in tables && e in tables && d != e :: tables[d] != tables[e])
    && (forall p, d | p in ptes && d in tables :: ptes[p].frame != tables[d])
  }

  ghost predicate FramesOk(s: State, held: set<Frame>) {
    |s.refs| == |s.ram| && FreeOk(s.free, s.refs, held) && OwnersOk(s.refs, s.tables, s.ptes) && Tabled(s)
  }

  /** Every resident page has a page-file copy, and a page the program has not written since
      it was loaded still equals that copy. */
  ghost predicate Backed(s: State) {
    forall p | p in s.ptes ::
      && p in s.pageFile
      && s.ptes[p].frame < |s.ram|
      && (!s.ptes[p].modified && s.pageFile[p].Some? ==> s.ram[s.ptes[p].frame] == s.pageFile[p].value)
  }

  ghost predicate Occupied(ws: seq<WsEntry>, i: int) {
    0 <= i < |ws| && !ws[i].empty
  }

  /** The occupied slots name the given pages, each once. */
  ghost predicate Names(ws: seq<WsEntry>, pages: set<Page>) {
    && (forall i | Occupied(ws, i) :: ws[i].page in pages)
    && (forall p | p in pages :: exists i :: Occupied(ws, i) && ws[i].page == p)
    && (forall i, j | Occupied(ws, i) && Occupied(ws, j) && i != j :: ws[i].page != ws[j].page)
  }

  /** The working set names the resident pages. */
  ghost predicate WsMatches(s: State) {
    Names(s.ws, s.ptes.Keys)
  }

  ghost predicate Full(ws: seq<WsEntry>) {
    forall i | 0 <= i < |ws| :: !ws[i].empty
  }

  /** The occupied slots are a prefix, and unless it is everything it ends at last. */
  ghost predicate Compact(ws: seq<WsEntry>, last: nat) {
    && last < |ws|
    && (Full(ws) || forall i | 0 <= i < |ws| :: Occupied(ws, i) <==> i < last)
  }

  ghost predicate Inv(s: State) {
    && FramesOk(s, {}) && Backed(s) && WsMatches(s) && Compact(s.ws, s.last)
  }

  /** What the program sees in page p: the frame when it is resident, else the page file.
      A page added without a content has none until the program first writes it. */
  function Logical(s: State, p: Page): Option<Content>
    requires p in s.pageFile && (p in s.ptes ==> s.ptes[p].frame < |s.ram|)
  {
    if p !in s.ptes then s.pageFile[p]
    else if s.ptes[p].modified || s.pageFile[p].Some? then Some(s.ram[s.ptes[p].frame])
    else None
  }

  // ---------------------------------------------------------------- primitives

  /** allocate_frame: the head of the free list. */
  function Take(s: State): State
    requires s.free != [] && s.free[0] < |s.refs|
  {
    s.(free := s.free[1..], refs := s.refs[s.free[0] := 0])
  }

  /** decrement_references, which frees the frame on its last reference. */
  function Drop(s: State, f: Frame): State {
    if |s.refs| <= f || s.refs[f] == 0 then s
    else if s.refs[f] == 1 then s.(refs := s.refs[f := 0], free := [f] + s.free)
    else s.(refs := s.refs[f := s.refs[f] - 1])
  }

  function Unmap(s: State, p: Page): State {
    if p in s.ptes then Drop(s, s.ptes[p].frame).(ptes := s.ptes - {p}) else s
  }

  /** create_page_table: one page of kernel heap, hence one frame, cleared. */
  function NewTable(s: State, d: nat): State
    requires s.free != [] && s.free[0] < |s.refs|
  {
    s.(free := s.free[1..], refs := s.refs[s.free[0] := 1], tables := s.tables[d := s.free[0]])
  }

  /** kfree of a page table and clearing of its directory entry. */
  function DropTable(s: State, d: nat): State
    requires d in s.tables
  {
    Drop(s, s.tables[d]).(tables := s.tables - {d})
  }

  /** map_frame on a page with no present entry whose table exists. */
  function Link(s: State, f: Frame, p: Page): State
    requires f < |s.refs|
  {
    s.(refs := s.refs[f := s.refs[f] + 1], ptes := s.ptes[p := Pte(f, false, false)])
  }

  /** map_frame: makes the table if it is missing, gives up another frame mapped there, and
      does nothing when this frame is already mapped there. */
  function MapFrame(s: State, f: Frame, p: Page): State
    requires f < |s.refs| && (TableOf(p) in s.tables || (s.free != [] && s.free[0] < |s.refs|))
  {
    var t := if TableOf(p) in s.tables then s else NewTable(s, TableOf(p));
    if p in t.ptes && t.ptes[p].frame == f then t else Link(Unmap(t, p), f, p)
  }

  /** pt_set_page_permissions(va, 0, PERM_USED). */
  function ClearUsed(s: State, p: Page): State {
    if p in s.ptes then s.(ptes := s.ptes[p := s.ptes[p].(used := false)]) else s
  }

  /** The content a copy of the page file yields; junk lies in a copy that has none. */
  function CopyOr(c: Option<Content>, junk: Content): Content {
    match c case Some(v) => v case None => junk
  }

  lemma ResidentFrame(s: State, p: Page)
    requires Inv(s)
    ensures Tabled(s)
    ensures p in s.ptes ==> s.ptes[p].frame < |s.ram| == |s.refs| && s.refs[s.ptes[p].frame] == 1
  {
  }

  // ---------------------------------------------------------------- byte ranges

  /** The number of pages that size bytes from a page boundary touch. */
  function PagesUp(size: nat): nat { (size + PAGE_SIZE - 1) / PAGE_SIZE }

  lemma InBytes(p: Page, lo: Page, size: nat)
    ensures lo * PAGE_SIZE <= p * PAGE_SIZE < lo * PAGE_SIZE + size <==> lo <= p < lo + PagesUp(size)
  {
  }

  /** One cleared page-file copy, if there is room. */
  function Reserve(file: map<Page, Option<Content>>, p: Page, room: nat): map<Page, Option<Content>> {
    if p in file || |file| < room then file[p := Some(ZeroPage())] else file
  }

  /** Cleared copies for k pages from lo. */
  function Reserved(file: map<Page, Option<Content>>, lo: Page, k: nat, room: nat): map<Page, Option<Content>>
    decreases k
  {
    if k == 0 then file else Reserve(Reserved(file, lo, k - 1, room), lo + k - 1, room)
  }

  /** The pages [lo, lo + k). */
  function PageRange(lo: Page, k: nat): set<Page>
    decreases k
  {
    if k == 0 then {} else PageRange(lo, k - 1) + {lo + k - 1}
  }

  lemma {:induction false} RangeHas(lo: Page, k: nat)
    ensures forall p :: p in PageRange(lo, k) <==> lo <= p < lo + k
    decreases k
  {
    if k == 0 {
    } else {
      RangeHas(lo, k - 1);
    }
  }

  lemma {:induction false} RangeSize(lo: Page, k: nat)
    ensures |PageRange(lo, k)| == k
    decreases k
  {
    if k == 0 {
    } else {
      RangeSize(lo, k - 1);
      BeyondRange(lo, k - 1);
    }
  }

  /** The page file has room for every page of a range, some of which it may already hold. */
  ghost predicate HasRoom(file: map<Page, Option<Content>>, lo: Page, k: nat, room: nat) {
    k == 0 || |file.Keys + PageRange(lo, k)| <= room
  }

  /** It has when there is room for as many pages as the range has. */
  lemma RoomForAll(file: map<Page, Option<Content>>, lo: Page, k: nat, room: nat)
    requires k == 0 || |file| + k <= room
    ensures HasRoom(file, lo, k, room)
  {
    RangeSize(lo, k);
    UnionSize(file.Keys, PageRange(lo, k));
  }

  lemma UnionSize(a: set<Page>, b: set<Page>)
    ensures |a + b| <= |a| + |b|
  {
    assert a + b == a + (b - a);
    assert |b - a| <= |b| by { SubsetSize(b - a, b); }
  }

  lemma {:induction false} SubsetSize(a: set<Page>, b: set<Page>)
    requires a <= b
    ensures |a| <= |b|
  {
    if a != {} {
      var x :| x in a;
      SubsetSize(a - {x}, b - {x});
    }
  }

  /** Every page of the range has a cleared copy in r, also one that had another in file, and no
      other copy differs. */
  ghost predicate ClearedRange(file: map<Page, Option<Content>>, r: map<Page, Option<Content>>, lo: Page, k: nat) {
    && (forall p :: p in r <==> p in file || lo <= p < lo + k)
    && forall p | p in r :: r[p] == if lo <= p < lo + k then Some(ZeroPage()) else file[p]
  }

  /** What the file has gained since lies in the range and is zero. */
  lemma {:induction false} ReservedZeroed(file: map<Page, Option<Content>>, lo: Page, k: nat, room: nat)
    ensures forall p | p in Reserved(file, lo, k, room) && p !in file ::
              lo <= p < lo + k && Reserved(file, lo, k, room)[p] == Some(ZeroPage())
    decreases k
  {
    if k == 0 {
    } else {
      ReservedZeroed(file, lo, k - 1, room);
      hide ZeroPage;
    }
  }

  /** With room for the whole range it ends up cleared, and nothing else changes. */
  lemma {:induction false} ReservedInRoom(file: map<Page, Option<Content>>, lo: Page, k: nat, room: nat)
    requires HasRoom(file, lo, k, room)
    ensures ClearedRange(file, Reserved(file, lo, k, room), lo, k)
    decreases k
  {
    hide ClearedRange, HasRoom, Reserve;
    ClearedNone(file, lo);
    if k == 0 {
    } else {
      RoomBefore(file, lo, k, room);
      ReservedInRoom(file, lo, k - 1, room);
      ReserveNext(file, Reserved(file, lo, k - 1, room), lo, k, room);
    }
  }

  lemma ClearedNone(file: map<Page, Option<Content>>, lo: Page)
    ensures ClearedRange(file, file, lo, 0)
  {
  }

  lemma RoomBefore(file: map<Page, Option<Content>>, lo: Page, k: nat, room: nat)
    requires 0 < k && HasRoom(file, lo, k, room)
    ensures HasRoom(file, lo, k - 1, room)
  {
    SubsetSize(file.Keys + PageRange(lo, k - 1), file.Keys + PageRange(lo, k));
  }

  lemma ReserveNext(file: map<Page, Option<Content>>, r: map<Page, Option<Content>>, lo: Page, k: nat, room: nat)
    requires 0 < k && HasRoom(file, lo, k, room) && ClearedRange(file, r, lo, k - 1)
    ensures ClearedRange(file, Reserve(r, lo + k - 1, room), lo, k)
  {
    hide ClearedRange, HasRoom, ZeroPage;
    NextFits(file, r, lo, k, room);
    ClearedNext(file, r, lo, k);
  }

  lemma NextFits(file: map<Page, Option<Content>>, r: map<Page, Option<Content>>, lo: Page, k: nat, room: nat)
    requires 0 < k && HasRoom(file, lo, k, room) && ClearedRange(file, r, lo, k - 1)
    ensures lo + k - 1 in r || |r| < room
  {
    var p, full := lo + k - 1, file.Keys + PageRange(lo, k);
    hide ZeroPage, PageRange;
    RangeHas(lo, k);
    assert forall q | q in r :: q in full;
    hide ClearedRange;
    if p !in r { GrowsTo(r.Keys, p, full); }
  }

  lemma GrowsTo(a: set<Page>, p: Page, b: set<Page>)
    requires a <= b && p in b && p !in a
    ensures |a| < |b|
  {
    SubsetSize(a + {p}, b);
  }

  lemma ClearedNext(file: map<Page, Option<Content>>, r: map<Page, Option<Content>>, lo: Page, k: nat)
    requires 0 < k && ClearedRange(file, r, lo, k - 1)
    ensures ClearedRange(file, r[lo + k - 1 := Some(ZeroPage())], lo, k)
  {
    hide ZeroPage;
  }

  // ---------------------------------------------------------------- what the answers say

  /** r is file with the members of range added one by one until there were room of them. */
  ghost predicate FilledUp(file: set<Page>, range: set<Page>, r: set<Page>, room: nat) {
    && file <= r <= file + range
    && (|file| <= room ==> |r| <= room)
    && if |file + range| <= room then r == file + range else room <= |r|
  }

  /** A member joins a set of fewer than room; one that is in it stays. */
  ghost predicate JoinedBy(r: set<Page>, p: Page, room: nat, after: set<Page>) {
    after == if p in r || |r| < room then r + {p} else r
  }

  lemma FilledNext(file: set<Page>, range: set<Page>, r: set<Page>, p: Page, room: nat, after: set<Page>)
    requires FilledUp(file, range, r, room)
    requires JoinedBy(r, p, room, after)
    ensures FilledUp(file, range + {p}, after, room)
  {
    var full := file + range;
    assert file + (range + {p}) == full + {p};
    SubsetSize(full, full + {p});
    if p in r { assert r + {p} == r; }
    if p !in r { assert |r + {p}| == |r| + 1; }
  }

  ghost predicate Fills(file: map<Page, Option<Content>>, r: map<Page, Option<Content>>, lo: Page, k: nat, room: nat) {
    FilledUp(file.Keys, PageRange(lo, k), r.Keys, room)
  }

  lemma {:induction false} ReservedFills(file: map<Page, Option<Content>>, lo: Page, k: nat, room: nat)
    ensures Fills(file, Reserved(file, lo, k, room), lo, k, room)
    decreases k
  {
    hide Fills, Reserve, Reserved;
    ReservedUnfold(file, lo, k, room);
    if k == 0 {
      FillsNone(file, lo, room);
    } else {
      ReservedFills(file, lo, k - 1, room);
      FillsNext(file, Reserved(file, lo, k - 1, room), lo, k, room);
    }
  }

  lemma FillsNone(file: map<Page, Option<Content>>, lo: Page, room: nat)
    ensures Fills(file, file, lo, 0, room)
  {
    assert file.Keys + {} == file.Keys;
  }

  lemma FillsNext(file: map<Page, Option<Content>>, r: map<Page, Option<Content>>, lo: Page, k: nat, room: nat)
    requires 0 < k && Fills(file, r, lo, k - 1, room)
    ensures Fills(file, Reserve(r, lo + k - 1, room), lo, k, room)
  {
    hide Fills, FilledUp, JoinedBy, Reserve, PageRange;
    var after := Reserve(r, lo + k - 1, room);
    FillsUnfold(file, r, lo, k - 1, room);
    ReserveKeys(r, lo + k - 1, room);
    RangeUnfold(lo, k);
    FilledNext(file.Keys, PageRange(lo, k - 1), r.Keys, lo + k - 1, room, after.Keys);
    FillsKeys(file, after, lo, k, room);
  }

  lemma FillsKeys(file: map<Page, Option<Content>>, r: map<Page, Option<Content>>, lo: Page, k: nat, room: nat)
    requires FilledUp(file.Keys, PageRange(lo, k), r.Keys, room)
    ensures Fills(file, r, lo, k, room)
  {
  }

  lemma FillsUnfold(file: map<Page, Option<Content>>, r: map<Page, Option<Content>>, lo: Page, k: nat, room: nat)
    requires Fills(file, r, lo, k, room)
    ensures FilledUp(file.Keys, PageRange(lo, k), r.Keys, room)
  {
  }

  lemma ReserveKeys(r: map<Page, Option<Content>>, p: Page, room: nat)
    ensures JoinedBy(r.Keys, p, room, Reserve(r, p, room).Keys)
  {
    assert |r| == |r.Keys|;
    assert r[p := Some(ZeroPage())].Keys == r.Keys + {p};
  }

  /** The answer for the last page, the only one that is looked at, is a success exactly when the
      file held that page already or there was room for the whole range. */
  lemma LastAnswer(file: map<Page, Option<Content>>, lo: Page, k: nat, room: nat)
    requires 0 < k
    ensures lo + k - 1 in Reserved(file, lo, k, room) <==> lo + k - 1 in file || HasRoom(file, lo, k, room)
  {
    hide Reserved, Reserve, PageRange, FilledUp, JoinedBy, HasRoom;
    var p, r := lo + k - 1, Reserved(file, lo, k - 1, room);
    ReservedFills(file, lo, k - 1, room);
    ReservedUnfold(file, lo, k, room);
    ReserveKeys(r, p, room);
    BeyondRange(lo, k - 1);
    LastOfSet(file.Keys, PageRange(lo, k - 1), r.Keys, p, room, Reserve(r, p, room).Keys);
    RoomUnfold(file, lo, k, room);
  }

  lemma BeyondRange(lo: Page, k: nat)
    ensures lo + k !in PageRange(lo, k)
  {
    RangeHas(lo, k);
  }

  lemma RoomUnfold(file: map<Page, Option<Content>>, lo: Page, k: nat, room: nat)
    requires 0 < k
    ensures HasRoom(file, lo, k, room) <==> |file.Keys + PageRange(lo, k - 1) + {lo + k - 1}| <= room
  {
    assert file.Keys + PageRange(lo, k) == file.Keys + PageRange(lo, k - 1) + {lo + k - 1};
  }

  lemma RangeUnfold(lo: Page, k: nat)
    requires 0 < k
    ensures PageRange(lo, k) == PageRange(lo, k - 1) + {lo + k - 1}
  {
  }

  lemma ReservedUnfold(file: map<Page, Option<Content>>, lo: Page, k: nat, room: nat)
    ensures Reserved(file, lo, k, room)
         == if k == 0 then file else Reserve(Reserved(file, lo, k - 1, room), lo + k - 1, room)
  {
  }

  lemma LastOfSet(file: set<Page>, range: set<Page>, r: set<Page>, p: Page, room: nat, after: set<Page>)
    requires FilledUp(file, range, r, room) && p !in range && JoinedBy(r, p, room, after)
    ensures p in after <==> p in file || |file + range + {p}| <= room
  {
    var full := file + range;
    if p in file {
      assert p in r;
    } else {
      assert p !in full && |full + {p}| == |full| + 1;
      SubsetSize(r, full);
    }
  }

  /** So it hides a refusal exactly when the file held the last page but had no room for the
      rest of the range. */
  lemma HiddenRefusal(file: map<Page, Option<Content>>, lo: Page, k: nat, room: nat)
    requires 0 < k && |file| <= room
    ensures lo + k - 1 in Reserved(file, lo, k, room)
            && (exists p :: lo <= p < lo + k && p !in Reserved(file, lo, k, room))
       <==> lo + k - 1 in file && !HasRoom(file, lo, k, room)
  {
    hide ZeroPage, Reserved;
    LastAnswer(file, lo, k, room);
    ReservedFills(file, lo, k, room);
    var r, full := Reserved(file, lo, k, room).Keys, file.Keys + PageRange(lo, k);
    RangeHas(lo, k);
    if HasRoom(file, lo, k, room) {
      assert r == full;
    } else {
      assert |file.Keys| == |file|;
      assert r != full;
      var p :| p in full && p !in r;
      assert p in PageRange(lo, k);
    }
  }

  /** Such a file: it holds page 1 and is full. */
  lemma RefusalHidden()
    ensures var file: map<Page, Option<Content>> := map[1 := None];
            1 in Reserved(file, 0, 2, 1) && 0 !in Reserved(file, 0, 2, 1)
  {
    var file: map<Page, Option<Content>> := map[1 := None];
    assert Reserved(file, 0, 0, 1) == file && Reserved(file, 0, 1, 1) == file;
  }

  /** When the file holds none of the range there is room for it exactly when as many copies are
      free as it has pages. */
  lemma RoomIfNew(file: map<Page, Option<Content>>, lo: Page, k: nat, room: nat)
    requires 0 < k && forall p | lo <= p < lo + k :: p !in file
    ensures HasRoom(file, lo, k, room) <==> |file| + k <= room
  {
    RangeHas(lo, k);
    RangeSize(lo, k);
    DisjointSize(file.Keys, PageRange(lo, k));
  }

  lemma DisjointSize(a: set<Page>, b: set<Page>)
    requires a !! b
    ensures |a + b| == |a| + |b|
  {
  }

  /** Reserving pages that are not resident keeps everything in order and shows in no page
      outside the range. */
  lemma ReservedKeeps(s: State, lo: Page, k: nat, room: nat)
    requires Inv(s) && HasRoom(s.pageFile, lo, k, room) && forall p | lo <= p < lo + k :: p !in s.ptes
    ensures var t := s.(pageFile := Reserved(s.pageFile, lo, k, room));
            Inv(t) && forall q | q in s.pageFile ::
              q in t.pageFile && Logical(t, q) == if lo <= q < lo + k then Some(ZeroPage()) else Logical(s, q)
  {
    var t := s.(pageFile := Reserved(s.pageFile, lo, k, room));
    hide FramesOk, WsMatches, Names, Compact, Reserved, HasRoom, ZeroPage;
    ReservedInRoom(s.pageFile, lo, k, room);
    FramesOnly(s, t, {});
    assert WsMatches(t) by { hide *; SameNames(s, t); }
    forall q | q in s.pageFile
      ensures q in t.pageFile && Logical(t, q) == if lo <= q < lo + k then Some(ZeroPage()) else Logical(s, q)
    {
      hide Inv;
    }
  }

  lemma SameNames(s: State, t: State)
    requires WsMatches(s) && t.ws == s.ws && t.ptes == s.ptes
    ensures WsMatches(t)
  {
  }

  // ---------------------------------------------------------------- what the primitives keep

  lemma HeadTaken(free: seq<Frame>, refs: seq<nat>, held: set<Frame>)
    requires FreeOk(free, refs, held) && free != []
    ensures free[0] < |refs| && refs[free[0]] == 0 && free[0] !in held
    ensures FreeOk(free[1..], refs, held + {free[0]})
  {
    assert forall f :: f in free <==> f == free[0] || f in free[1..];
    assert free[0] !in free[1..];
  }

  lemma Referenced(free: seq<Frame>, refs: seq<nat>, held: set<Frame>, f: Frame)
    requires FreeOk(free, refs, held) && f in held
    ensures f < |refs| && refs[f] == 0 && FreeOk(free, refs[f := 1], held - {f})
  {
  }

  lemma Returned(free: seq<Frame>, refs: seq<nat>, held: set<Frame>, f: Frame)
    requires FreeOk(free, refs, held) && f < |refs| && 0 < refs[f]
    ensures FreeOk([f] + free, refs[f := 0], held)
  {
    InsertDistinct(f, free);
  }

  lemma TakeKeeps(s: State, held: set<Frame>)
    requires FramesOk(s, held) && s.free != []
    ensures s.free[0] !in held && s.free[0] < |s.refs| && FramesOk(Take(s), held + {s.free[0]})
  {
    HeadTaken(s.free, s.refs, held);
    assert s.refs[s.free[0] := 0] == s.refs;
  }

  lemma LinkOwners(refs: seq<nat>, tables: map<nat, Frame>, ptes: map<Page, Pte>, f: Frame, p: Page)
    requires OwnersOk(refs, tables, ptes) && f < |refs| && refs[f] == 0 && p !in ptes
    ensures OwnersOk(refs[f := 1], tables, ptes[p := Pte(f, false, false)])
  {
  }

  lemma LinkKeeps(s: State, held: set<Frame>, f: Frame, p: Page)
    requires FramesOk(s, held) && f in held && p !in s.ptes && TableOf(p) in s.tables
    ensures FramesOk(Link(s, f, p), held - {f})
  {
    Referenced(s.free, s.refs, held, f);
    LinkOwners(s.refs, s.tables, s.ptes, f, p);
    hide FreeOk, OwnersOk;
  }

  lemma TableOwners(refs: seq<nat>, tables: map<nat, Frame>, ptes: map<Page, Pte>, f: Frame, d: nat)
    requires OwnersOk(refs, tables, ptes) && f < |refs| && refs[f] == 0 && d !in tables
    ensures OwnersOk(refs[f := 1], tables[d := f], ptes)
  {
  }

  lemma NewTableKeeps(s: State, held: set<Frame>, d: nat)
    requires FramesOk(s, held) && s.free != [] && d !in s.tables
    ensures s.free[0] < |s.refs| && FramesOk(NewTable(s, d), held)
  {
    HeadTaken(s.free, s.refs, held);
    Referenced(s.free[1..], s.refs, held + {s.free[0]}, s.free[0]);
    assert held + {s.free[0]} - {s.free[0]} == held;
    TableOwners(s.refs, s.tables, s.ptes, s.free[0], d);
    hide FreeOk, OwnersOk;
  }

  lemma UnlinkOwners(refs: seq<nat>, tables: map<nat, Frame>, ptes: map<Page, Pte>, p: Page)
    requires OwnersOk(refs, tables, ptes) && p in ptes
    ensures ptes[p].frame < |refs| && refs[ptes[p].frame] == 1
    ensures OwnersOk(refs[ptes[p].frame := 0], tables, ptes - {p})
  {
  }

  lemma UnmapKeeps(s: State, held: set<Frame>, p: Page)
    requires FramesOk(s, held)
    ensures FramesOk(Unmap(s, p), held)
    ensures p in s.ptes ==> Unmap(s, p).free == [s.ptes[p].frame] + s.free
  {
    if p in s.ptes {
      UnlinkOwners(s.refs, s.tables, s.ptes, p);
      Returned(s.free, s.refs, held, s.ptes[p].frame);
      hide FreeOk, OwnersOk;
    }
  }

  lemma UntableOwners(refs: seq<nat>, tables: map<nat, Frame>, ptes: map<Page, Pte>, d: nat)
    requires OwnersOk(refs, tables, ptes) && d in tables
    ensures tables[d] < |refs| && refs[tables[d]] == 1
    ensures OwnersOk(refs[tables[d] := 0], tables - {d}, ptes)
  {
  }

  lemma DropTableKeeps(s: State, held: set<Frame>, d: nat)
    requires FramesOk(s, held) && d in s.tables && forall p | p in s.ptes :: TableOf(p) != d
    ensures FramesOk(DropTable(s, d), held)
    ensures DropTable(s, d).free == [s.tables[d]] + s.free
  {
    UntableOwners(s.refs, s.tables, s.ptes, d);
    Returned(s.free, s.refs, held, s.tables[d]);
    hide FreeOk, OwnersOk;
  }

  lemma NamesWithout(ws: seq<WsEntry>, pages: set<Page>, v: nat)
    requires Names(ws, pages) && Occupied(ws, v)
    ensures Names(ws[v := VACANT], pages - {ws[v].page})
  {
    var w := ws[v := VACANT];
    assert forall i :: Occupied(w, i) <==> Occupied(ws, i) && i != v;
    forall p | p in pages - {ws[v].page}
      ensures exists i :: Occupied(w, i) && w[i].page == p
    {
      var i :| Occupied(ws, i) && ws[i].page == p;
      assert Occupied(w, i) && w[i].page == p;
    }
  }

  lemma NamesWith(ws: seq<WsEntry>, pages: set<Page>, v: nat, e: WsEntry)
    requires Names(ws, pages) && v < |ws| && ws[v].empty && !e.empty && e.page !in pages
    ensures Names(ws[v := e], pages + {e.page})
  {
    var w := ws[v := e];
    assert forall i :: Occupied(w, i) <==> Occupied(ws, i) || i == v;
    forall p | p in pages + {e.page}
      ensures exists i :: Occupied(w, i) && w[i].page == p
    {
      if p == e.page {
        assert Occupied(w, v);
      } else {
        var i :| Occupied(ws, i) && ws[i].page == p;
        assert Occupied(w, i) && w[i].page == p;
      }
    }
  }

  /** FramesOk depends only on who owns which frame. */
  lemma FramesOnly(s: State, t: State, held: set<Frame>)
    requires FramesOk(s, held)
    requires t.free == s.free && t.refs == s.refs && t.tables == s.tables && t.ptes == s.ptes && |t.ram| == |s.ram|
    ensures FramesOk(t, held)
  {
  }
}
