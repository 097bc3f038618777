/** freeMem of memory_manager.c as a function of the memory state: the page-file copies, the
    resident pages and the emptied page tables of a range are given back, and nothing else. */
module Freeing {
  import opened Common
  import opened MemoryState

  /** The part of a page-indexed map outside [lo, hi). */
  function Outside<V>(m: map<Page, V>, lo: Page, hi: Page): map<Page, V> {
    map p | p in m && !(lo <= p < hi) :: m[p]
  }

  /** freeAllPagees: the page file without the copies of [lo, hi). */
  function Forget(s: State, lo: Page, hi: Page): State {
    s.(pageFile := Outside(s.pageFile, lo, hi))
  }

  // ---------------------------------------------------------------- resident pages

  predicate Leaves(e: WsEntry, lo: Page, hi: Page) {
    !e.empty && lo <= e.page < hi
  }

  /** The pages of [lo, hi) named by the first k slots. */
  ghost function Leaving(ws: seq<WsEntry>, k: nat, lo: Page, hi: Page): set<Page>
    requires k <= |ws|
  {
    set i | 0 <= i < k && Leaves(ws[i], lo, hi) :: ws[i].page
  }

  /** Unmaps them in slot order. */
  function UnmapLeaving(s: State, ws: seq<WsEntry>, k: nat, lo: Page, hi: Page): (t: State)
    requires k <= |ws|
    ensures t == s.(free := t.free, refs := t.refs, ptes := t.ptes) && |t.refs| == |s.refs|
    decreases k
  {
    if k == 0 then s
    else
      var t := UnmapLeaving(s, ws, k - 1, lo, hi);
      if Leaves(ws[k - 1], lo, hi) then Unmap(t, ws[k - 1].page) else t
  }

  lemma {:induction false} UnmapLeavingKeeps(s: State, ws: seq<WsEntry>, k: nat, lo: Page, hi: Page)
    requires k <= |ws| && FramesOk(s, {})
    ensures FramesOk(UnmapLeaving(s, ws, k, lo, hi), {})
    ensures |UnmapLeaving(s, ws, k, lo, hi).free| + |UnmapLeaving(s, ws, k, lo, hi).ptes| == |s.free| + |s.ptes|
    decreases k
  {
    hide FramesOk;
    if k == 0 {
    } else {
      UnmapLeavingKeeps(s, ws, k - 1, lo, hi);
      UnmapCounts(UnmapLeaving(s, ws, k - 1, lo, hi), ws[k - 1].page);
    }
  }

  lemma UnmapCounts(s: State, p: Page)
    requires FramesOk(s, {})
    ensures FramesOk(Unmap(s, p), {})
    ensures |Unmap(s, p).free| + |Unmap(s, p).ptes| == |s.free| + |s.ptes|
  {
    UnmapKeeps(s, {}, p);
    if p in s.ptes {
      assert (s.ptes - {p}).Keys == s.ptes.Keys - {p};
    }
  }

  lemma RemoveTwice<K, V>(m: map<K, V>, a: set<K>, b: set<K>)
    ensures m - a - b == m - (a + b)
  {
  }

  lemma LeavingStep(ws: seq<WsEntry>, k: nat, lo: Page, hi: Page)
    requires 0 < k <= |ws|
    ensures Leaving(ws, k, lo, hi)
         == Leaving(ws, k - 1, lo, hi) + if Leaves(ws[k - 1], lo, hi) then {ws[k - 1].page} else {}
  {
  }

  lemma {:induction false} UnmapLeavingExact(s: State, ws: seq<WsEntry>, k: nat, lo: Page, hi: Page)
    requires k <= |ws|
    ensures UnmapLeaving(s, ws, k, lo, hi).ptes == s.ptes - Leaving(ws, k, lo, hi)
    decreases k
  {
    if k == 0 {
      assert Leaving(ws, 0, lo, hi) == {};
    } else {
      UnmapLeavingExact(s, ws, k - 1, lo, hi);
      LeavingStep(ws, k, lo, hi);
      RemoveTwice(s.ptes, Leaving(ws, k - 1, lo, hi), {ws[k - 1].page});
    }
  }

  predicate Stays(e: WsEntry, lo: Page, hi: Page) {
    !e.empty && !(lo <= e.page < hi)
  }

  /** The entries among the first k slots that stay, in their order. */
  function Staying(ws: seq<WsEntry>, k: nat, lo: Page, hi: Page): (r: seq<WsEntry>)
    requires k <= |ws|
    ensures |r| <= k
    decreases k
  {
    if k == 0 then []
    else Staying(ws, k - 1, lo, hi)
         + if Stays(ws[k - 1], lo, hi) then [ws[k - 1]] else []
  }

  /** The working set afterwards: what stays, moved together, then vacant slots. */
  function Packed(ws: seq<WsEntry>, lo: Page, hi: Page): (r: seq<WsEntry>)
    ensures |r| == |ws|
  {
    var stay := Staying(ws, |ws|, lo, hi);
    stay + seq(|ws| - |stay|, _ => VACANT)
  }

  /** What stays is what lies outside the range among the first k slots. */
  lemma {:induction false} StayingHas(ws: seq<WsEntry>, k: nat, lo: Page, hi: Page)
    requires k <= |ws|
    ensures forall e :: e in Staying(ws, k, lo, hi) <==> e in ws[..k] && Stays(e, lo, hi)
    decreases k
  {
    if k == 0 {
    } else {
      StayingHas(ws, k - 1, lo, hi);
      assert ws[..k] == ws[..k - 1] + [ws[k - 1]];
    }
  }

  /** Two entries that stay keep their order. */
  lemma {:induction false} StayingOrder(ws: seq<WsEntry>, k: nat, lo: Page, hi: Page, a: nat, b: nat)
    requires k <= |ws| && a < b < |Staying(ws, k, lo, hi)|
    ensures exists i, j ::
              && 0 <= i < j < k && Stays(ws[i], lo, hi) && Stays(ws[j], lo, hi)
              && ws[i] == Staying(ws, k, lo, hi)[a] && ws[j] == Staying(ws, k, lo, hi)[b]
    decreases k
  {
    if k == 0 {
    } else {
      var before := Staying(ws, k - 1, lo, hi);
      if b < |before| {
        StayingOrder(ws, k - 1, lo, hi, a, b);
        var i, j :| 0 <= i < j < k - 1 && Stays(ws[i], lo, hi) && Stays(ws[j], lo, hi)
                    && ws[i] == before[a] && ws[j] == before[b];
      } else {
        StayingHas(ws, k - 1, lo, hi);
        assert before[a] in ws[..k - 1];
        var i :| 0 <= i < k - 1 && ws[i] == before[a];
        assert Stays(ws[i], lo, hi) && Stays(ws[k - 1], lo, hi);
      }
    }
  }

  /** The occupied slots of packed hold entries of ws in their old order, and the others are
      vacant. */
  ghost predicate Stable(ws: seq<WsEntry>, packed: seq<WsEntry>) {
    && (forall a, b | Occupied(packed, a) && Occupied(packed, b) && a < b ::
          exists i, j :: Occupied(ws, i) && Occupied(ws, j) && i < j && ws[i] == packed[a] && ws[j] == packed[b])
    && forall a | 0 <= a < |packed| && packed[a].empty :: packed[a] == WsEntry(0, true, 0)
  }

  /** The first k slots, and no others, are occupied. */
  ghost predicate Prefix(ws: seq<WsEntry>, k: nat) {
    k <= |ws| && forall i | 0 <= i < |ws| :: Occupied(ws, i) <==> i < k
  }

  lemma PackedStable(ws: seq<WsEntry>, lo: Page, hi: Page)
    ensures Stable(ws, Packed(ws, lo, hi)) && Prefix(Packed(ws, lo, hi), |Staying(ws, |ws|, lo, hi)|)
  {
    var stay, packed := Staying(ws, |ws|, lo, hi), Packed(ws, lo, hi);
    StayingOccupied(ws, |ws|, lo, hi);
    forall a | 0 <= a < |packed|
      ensures Occupied(packed, a) <==> a < |stay|
    {
    }
    forall a, b | Occupied(packed, a) && Occupied(packed, b) && a < b
      ensures exists i, j ::
                Occupied(ws, i) && Occupied(ws, j) && i < j && ws[i] == packed[a] && ws[j] == packed[b]
    {
      StayingOrder(ws, |ws|, lo, hi, a, b);
      var i, j :| 0 <= i < j < |ws| && Stays(ws[i], lo, hi) && Stays(ws[j], lo, hi)
                  && ws[i] == stay[a] && ws[j] == stay[b];
      assert Occupied(ws, i) && Occupied(ws, j);
    }
  }

  lemma PrefixUnique(ws: seq<WsEntry>, k: nat, l: nat)
    requires Prefix(ws, k) && Prefix(ws, l)
    ensures k == l
  {
    assert k < |ws| ==> (Occupied(ws, k) <==> k < l);
    assert l < |ws| ==> (Occupied(ws, l) <==> l < k);
  }

  ghost predicate DistinctPages(ws: seq<WsEntry>) {
    forall j, l | 0 <= j < |ws| && 0 <= l < |ws| && j != l :: ws[j].page != ws[l].page
  }

  lemma {:induction false} StayingDistinct(ws: seq<WsEntry>, pages: set<Page>, k: nat, lo: Page, hi: Page)
    requires Names(ws, pages) && k <= |ws|
    ensures DistinctPages(Staying(ws, k, lo, hi))
    decreases k
  {
    if k == 0 {
    } else {
      StayingDistinct(ws, pages, k - 1, lo, hi);
      StayingHas(ws, k - 1, lo, hi);
      var before, stay := Staying(ws, k - 1, lo, hi), Staying(ws, k, lo, hi);
      if Stays(ws[k - 1], lo, hi) {
        assert stay == before + [ws[k - 1]];
        forall j | 0 <= j < |before|
          ensures before[j].page != ws[k - 1].page
        {
          assert before[j] in ws[..k - 1];
          var i :| 0 <= i < k - 1 && ws[i] == before[j];
          assert Occupied(ws, i) && Occupied(ws, k - 1);
        }
        assert forall j | 0 <= j < |before| :: stay[j] == before[j];
      }
    }
  }

  lemma LeavingHas(ws: seq<WsEntry>, pages: set<Page>, lo: Page, hi: Page)
    requires Names(ws, pages)
    ensures forall p :: p in Leaving(ws, |ws|, lo, hi) <==> p in pages && lo <= p < hi
  {
    forall p | p in pages && lo <= p < hi
      ensures p in Leaving(ws, |ws|, lo, hi)
    {
      var i :| Occupied(ws, i) && ws[i].page == p;
      assert Leaves(ws[i], lo, hi);
    }
    forall p | p in Leaving(ws, |ws|, lo, hi)
      ensures p in pages && lo <= p < hi
    {
      var i :| 0 <= i < |ws| && Leaves(ws[i], lo, hi) && ws[i].page == p;
      assert Occupied(ws, i);
    }
  }

  /** The packed working set names exactly the pages outside the range, each once. */
  lemma PackedNames(ws: seq<WsEntry>, pages: set<Page>, lo: Page, hi: Page)
    requires Names(ws, pages)
    ensures Names(Packed(ws, lo, hi), pages - Leaving(ws, |ws|, lo, hi))
  {
    LeavingHas(ws, pages, lo, hi);
    StayingHas(ws, |ws|, lo, hi);
    StayingDistinct(ws, pages, |ws|, lo, hi);
    assert ws[..|ws|] == ws;
    var stay, packed := Staying(ws, |ws|, lo, hi), Packed(ws, lo, hi);
    forall j | Occupied(packed, j)
      ensures j < |stay| && packed[j].page in pages && !(lo <= packed[j].page < hi)
    {
      assert packed[j] in stay;
      var i :| 0 <= i < |ws| && ws[i] == packed[j];
      assert Occupied(ws, i);
    }
    forall j, l | Occupied(packed, j) && Occupied(packed, l) && j != l
      ensures packed[j].page != packed[l].page
    {
      assert packed[j] == stay[j] && packed[l] == stay[l];
    }
    forall p | p in pages && !(lo <= p < hi)
      ensures exists j :: Occupied(packed, j) && packed[j].page == p
    {
      var i :| Occupied(ws, i) && ws[i].page == p;
      assert ws[i] in stay;
      var j :| 0 <= j < |stay| && stay[j] == ws[i];
      assert Occupied(packed, j) && packed[j].page == p;
    }
  }

  lemma PackedCompact(ws: seq<WsEntry>, lo: Page, hi: Page)
    requires ws != []
    ensures Compact(Packed(ws, lo, hi), Wrap(|Staying(ws, |ws|, lo, hi)|, |ws|))
  {
    var stay, packed := Staying(ws, |ws|, lo, hi), Packed(ws, lo, hi);
    StayingOccupied(ws, |ws|, lo, hi);
    assert forall j | 0 <= j < |ws| :: Occupied(packed, j) <==> j < |stay|;
  }

  lemma {:induction false} StayingOccupied(ws: seq<WsEntry>, k: nat, lo: Page, hi: Page)
    requires k <= |ws|
    ensures Full(Staying(ws, k, lo, hi))
    decreases k
  {
    if k == 0 {
    } else {
      StayingOccupied(ws, k - 1, lo, hi);
    }
  }

  // ---------------------------------------------------------------- page tables

  /** All entries of table d are zero. */
  ghost predicate TableEmpty(s: State, d: nat) {
    forall p | p in s.ptes :: TableOf(p) != d
  }

  ghost function DropIfEmpty(s: State, d: nat): (t: State)
    ensures t == s.(free := t.free, refs := t.refs, tables := t.tables) && |t.refs| == |s.refs|
  {
    if d in s.tables && TableEmpty(s, d) then DropTable(s, d) else s
  }

  /** removeEmptyNonUsedPages over the first k pages from lo. */
  ghost function DropEmptyTables(s: State, lo: Page, k: nat): (t: State)
    ensures t == s.(free := t.free, refs := t.refs, tables := t.tables) && |t.refs| == |s.refs|
    decreases k
  {
    if k == 0 then s
    else
      DropIfEmpty(DropEmptyTables(s, lo, k - 1), TableOf(lo + k - 1))
  }

  /** The empty tables that the pages [lo, lo + k) lie in. */
  ghost predicate Doomed(s: State, lo: Page, k: nat, d: nat) {
    TableEmpty(s, d) && exists p: nat :: lo <= p < lo + k && TableOf(p) == d
  }

  ghost predicate TablesLeft(s: State, lo: Page, k: nat, left: map<nat, Frame>) {
    && (forall d | d in left :: d in s.tables && left[d] == s.tables[d])
    && forall d | d in s.tables :: d in left <==> !Doomed(s, lo, k, d)
  }

  lemma DropCounts(s: State, d: nat)
    requires FramesOk(s, {})
    ensures FramesOk(DropIfEmpty(s, d), {})
    ensures |DropIfEmpty(s, d).free| + |DropIfEmpty(s, d).tables| == |s.free| + |s.tables|
  {
    if d in s.tables && TableEmpty(s, d) {
      DropTableKeeps(s, {}, d);
      assert (s.tables - {d}).Keys == s.tables.Keys - {d};
    }
  }

  lemma {:induction false} DropEmptyTablesKeeps(s: State, lo: Page, k: nat)
    requires FramesOk(s, {})
    ensures FramesOk(DropEmptyTables(s, lo, k), {})
    ensures |DropEmptyTables(s, lo, k).free| + |DropEmptyTables(s, lo, k).tables| == |s.free| + |s.tables|
    decreases k
  {
    hide FramesOk, TableOf;
    if k == 0 {
    } else {
      DropEmptyTablesKeeps(s, lo, k - 1);
      DropCounts(DropEmptyTables(s, lo, k - 1), TableOf(lo + k - 1));
    }
  }

  lemma {:induction false} DropEmptyTablesExact(s: State, lo: Page, k: nat)
    ensures TablesLeft(s, lo, k, DropEmptyTables(s, lo, k).tables)
    decreases k
  {
    if k == 0 {
    } else {
      DropEmptyTablesExact(s, lo, k - 1);
      var t, d := DropEmptyTables(s, lo, k - 1), TableOf(lo + k - 1);
      assert TableEmpty(t, d) == TableEmpty(s, d);
      DoomedStep(s, lo, k);
    }
  }

  lemma DoomedStep(s: State, lo: Page, k: nat)
    requires 0 < k
    ensures forall d :: Doomed(s, lo, k, d) <==>
              Doomed(s, lo, k - 1, d) || (d == TableOf(lo + k - 1) && TableEmpty(s, d))
  {
  }

  // ---------------------------------------------------------------- the whole operation

  /** The resident pages of [lo, hi) are unmapped and the working set is packed. */
  function Release(s: State, lo: Page, hi: Page): State
    requires s.ws != []
  {
    UnmapLeaving(s, s.ws, |s.ws|, lo, hi)
    .(ws := Packed(s.ws, lo, hi), last := Wrap(|Staying(s.ws, |s.ws|, lo, hi)|, |s.ws|))
  }

  /** down and up are the sizes of the range in whole pages, rounded down and up. */
  ghost function Freed(s: State, lo: Page, down: nat, up: nat): State
    requires s.ws != []
  {
    DropEmptyTables(Release(Forget(s, lo, lo + down), lo, lo + up), lo, down)
  }

  lemma ReleaseFrames(s: State, lo: Page, hi: Page)
    requires FramesOk(s, {}) && s.ws != []
    ensures FramesOk(Release(s, lo, hi), {})
    ensures |Release(s, lo, hi).free| + |Release(s, lo, hi).ptes| == |s.free| + |s.ptes|
  {
    UnmapLeavingKeeps(s, s.ws, |s.ws|, lo, hi);
    FramesOnly(UnmapLeaving(s, s.ws, |s.ws|, lo, hi), Release(s, lo, hi), {});
  }

  lemma ReleaseExact(s: State, lo: Page, hi: Page)
    requires s.ws != [] && WsMatches(s)
    ensures var t := Release(s, lo, hi);
            && t.ptes == Outside(s.ptes, lo, hi)
            && WsMatches(t) && Compact(t.ws, t.last)
  {
    UnmapLeavingExact(s, s.ws, |s.ws|, lo, hi);
    PackedNames(s.ws, s.ptes.Keys, lo, hi);
    PackedCompact(s.ws, lo, hi);
    var t := Release(s, lo, hi);
    assert t.ptes.Keys == s.ptes.Keys - Leaving(s.ws, |s.ws|, lo, hi);
  }

  /** Freeing is exact.  No page of the range stays mapped or keeps a page-file copy, every
      other page keeps its entry and its copy, the survivors keep their slots' order, moved
      together, exactly the emptied tables of the range go, each once, and every frame given up
      is a free frame again. */
  lemma FreedExact(s: State, lo: Page, down: nat, up: nat)
    requires Inv(s) && down <= up
    ensures var t := Freed(s, lo, down, up);
            && Inv(t)
            && t.ptes == Outside(s.ptes, lo, lo + up)
            && t.pageFile == Outside(s.pageFile, lo, lo + down)
            && TablesLeft(s.(ptes := t.ptes), lo, down, t.tables)
            && t.ws == Packed(s.ws, lo, lo + up) && Stable(s.ws, t.ws)
            && (forall k: nat | Prefix(t.ws, k) :: t.last == k % |s.ws|)
            && t.ram == s.ram && t.hand == s.hand
            && |t.free| + |t.ptes| + |t.tables| == |s.free| + |s.ptes| + |s.tables|
  {
    SomeSlot(s);
    hide Inv, TablesLeft, Stable, Prefix, Packed, Outside, Freed;
    FreedMemory(s, lo, down, up);
    FreedSlots(s, lo, down, up);
  }

  // ---------------------------------------------------------------- the order of the free list

  /** Frame f lies on top of frame g among those that later has in front of earlier. */
  ghost predicate Above(earlier: seq<Frame>, later: seq<Frame>, f: Frame, g: Frame) {
    exists a, b :: 0 <= a < b < |later| - |earlier| && later[a] == f && later[b] == g
  }

  /** later is earlier with frames in front, f among them. */
  ghost predicate OnTop(earlier: seq<Frame>, later: seq<Frame>, f: Frame) {
    Stacked(earlier, later) && exists a :: 0 <= a < |later| - |earlier| && later[a] == f
  }

  ghost predicate Stacked(earlier: seq<Frame>, later: seq<Frame>) {
    |earlier| <= |later| && later[|later| - |earlier|..] == earlier
  }

  lemma PushedOn(earlier: seq<Frame>, later: seq<Frame>, h: Frame)
    requires Stacked(earlier, later)
    ensures Stacked(earlier, [h] + later) && OnTop(earlier, [h] + later, h)
    ensures forall f | OnTop(earlier, later, f) :: OnTop(earlier, [h] + later, f) && Above(earlier, [h] + later, h, f)
    ensures forall f, g | Above(earlier, later, f, g) :: Above(earlier, [h] + later, f, g)
  {
    var now := [h] + later;
    assert now[|now| - |earlier|..] == later[|later| - |earlier|..];
    assert now[0] == h;
    forall f | OnTop(earlier, later, f)
      ensures OnTop(earlier, now, f) && Above(earlier, now, h, f)
    {
      var a :| 0 <= a < |later| - |earlier| && later[a] == f;
      assert now[a + 1] == f;
    }
    forall f, g | Above(earlier, later, f, g)
      ensures Above(earlier, now, f, g)
    {
      var a, b :| 0 <= a < b < |later| - |earlier| && later[a] == f && later[b] == g;
      assert now[a + 1] == f && now[b + 1] == g;
    }
  }

  /** The frames of the pages of [lo, hi) in the first k slots lie on the free list in front of
      what it held, that of a later slot above that of an earlier one. */
  ghost predicate SlotOrder(
    ptes: map<Page, Pte>, ws: seq<WsEntry>, k: nat, lo: Page, hi: Page, earlier: seq<Frame>, later: seq<Frame>)
    requires k <= |ws|
  {
    && Stacked(earlier, later)
    && (forall i | 0 <= i < k && Leaves(ws[i], lo, hi) ::
          ws[i].page in ptes && OnTop(earlier, later, ptes[ws[i].page].frame))
    && forall i, j | 0 <= i < j < k && Leaves(ws[i], lo, hi) && Leaves(ws[j], lo, hi) ::
         && ws[i].page in ptes && ws[j].page in ptes
         && Above(earlier, later, ptes[ws[j].page].frame, ptes[ws[i].page].frame)
  }

  lemma SlotOrderStep(
    ptes: map<Page, Pte>, ws: seq<WsEntry>, k: nat, lo: Page, hi: Page, earlier: seq<Frame>, later: seq<Frame>)
    requires k < |ws| && SlotOrder(ptes, ws, k, lo, hi, earlier, later)
    requires Leaves(ws[k], lo, hi) ==> ws[k].page in ptes
    ensures SlotOrder(ptes, ws, k + 1, lo, hi, earlier,
                      if Leaves(ws[k], lo, hi) then [ptes[ws[k].page].frame] + later else later)
  {
    hide OnTop, Above, Stacked;
    if Leaves(ws[k], lo, hi) { PushedOn(earlier, later, ptes[ws[k].page].frame); }
  }

  lemma SlotOrderNone(ptes: map<Page, Pte>, ws: seq<WsEntry>, lo: Page, hi: Page, free: seq<Frame>)
    ensures SlotOrder(ptes, ws, 0, lo, hi, free, free)
  {
  }

  /** The leaving pages' frames go to the free list in slot order. */
  lemma {:induction false} LeavingOrder(s: State, ws: seq<WsEntry>, k: nat, lo: Page, hi: Page)
    requires k <= |ws| && FramesOk(s, {}) && Names(ws, s.ptes.Keys)
    ensures SlotOrder(s.ptes, ws, k, lo, hi, s.free, UnmapLeaving(s, ws, k, lo, hi).free)
    decreases k
  {
    hide SlotOrder, FramesOk, Names;
    if k == 0 {
      SlotOrderNone(s.ptes, ws, lo, hi, s.free);
    } else {
      var before, p := UnmapLeaving(s, ws, k - 1, lo, hi), ws[k - 1].page;
      LeavingOrder(s, ws, k - 1, lo, hi);
      if Leaves(ws[k - 1], lo, hi) {
        StillMapped(s, ws, k - 1, lo, hi);
        UnmapLeavingKeeps(s, ws, k - 1, lo, hi);
        UnmapKeeps(before, {}, p);
      }
      SlotOrderStep(s.ptes, ws, k - 1, lo, hi, s.free, before.free);
    }
  }

  /** The page of a slot is still mapped, as before, when that slot's turn comes. */
  lemma StillMapped(s: State, ws: seq<WsEntry>, k: nat, lo: Page, hi: Page)
    requires k < |ws| && Names(ws, s.ptes.Keys) && Leaves(ws[k], lo, hi)
    ensures var t := UnmapLeaving(s, ws, k, lo, hi);
            ws[k].page in s.ptes && ws[k].page in t.ptes && t.ptes[ws[k].page] == s.ptes[ws[k].page]
  {
    UnmapLeavingExact(s, ws, k, lo, hi);
    assert Occupied(ws, k);
    forall i | 0 <= i < k && Leaves(ws[i], lo, hi)
      ensures ws[i].page != ws[k].page
    {
      assert Occupied(ws, i);
    }
  }

  /** The emptied tables' frames go on top of those, that of a later table above that of an
      earlier one. */
  ghost predicate TableOrder(s: State, lo: Page, k: nat, later: seq<Frame>) {
    && Stacked(s.free, later)
    && (forall d | d in s.tables && Doomed(s, lo, k, d) :: OnTop(s.free, later, s.tables[d]))
    && forall d, e | d in s.tables && e in s.tables && d < e && Doomed(s, lo, k, d) && Doomed(s, lo, k, e) ::
         Above(s.free, later, s.tables[e], s.tables[d])
  }

  lemma {:induction false} TablesOrder(s: State, lo: Page, k: nat)
    requires FramesOk(s, {})
    ensures TableOrder(s, lo, k, DropEmptyTables(s, lo, k).free)
    decreases k
  {
    hide FramesOk, TablesLeft, DropTable, Stacked, OnTop, Above, Doomed, TableOrder;
    if k == 0 {
      TableOrderNone(s, lo);
    } else {
      var t, d := DropEmptyTables(s, lo, k - 1), TableOf(lo + k - 1);
      TablesOrder(s, lo, k - 1);
      DropEmptyTablesKeeps(s, lo, k - 1);
      DropEmptyTablesExact(s, lo, k - 1);
      TableLeft(s, lo, k - 1, t.tables, d);
      if d in t.tables && TableEmpty(t, d) {
        DropTableKeeps(t, {}, d);
        TableOrderPush(s, lo, k, t.free, d);
      } else {
        TableOrderSkip(s, lo, k, t.free, d);
      }
    }
  }

  lemma TableOrderNone(s: State, lo: Page)
    ensures TableOrder(s, lo, 0, s.free)
  {
  }

  lemma TableLeft(s: State, lo: Page, k: nat, left: map<nat, Frame>, d: nat)
    requires TablesLeft(s, lo, k, left)
    ensures d in left <==> d in s.tables && !Doomed(s, lo, k, d)
    ensures d in left ==> left[d] == s.tables[d]
  {
  }

  lemma TableOrderPush(s: State, lo: Page, k: nat, later: seq<Frame>, d: nat)
    requires 0 < k && d == TableOf(lo + k - 1) && d in s.tables && TableEmpty(s, d)
    requires TableOrder(s, lo, k - 1, later) && !Doomed(s, lo, k - 1, d)
    ensures TableOrder(s, lo, k, [s.tables[d]] + later)
  {
    PushedOn(s.free, later, s.tables[d]);
    DoomedStep(s, lo, k);
    DoomedBelow(s, lo, k - 1);
    hide OnTop, Above, Stacked, Doomed, TableEmpty, TableOf;
  }

  lemma TableOrderSkip(s: State, lo: Page, k: nat, later: seq<Frame>, d: nat)
    requires 0 < k && d == TableOf(lo + k - 1) && TableOrder(s, lo, k - 1, later)
    requires !(d in s.tables && TableEmpty(s, d)) || Doomed(s, lo, k - 1, d)
    ensures TableOrder(s, lo, k, later)
  {
    DoomedStep(s, lo, k);
    hide OnTop, Above, Stacked, Doomed, TableEmpty, TableOf;
  }

  lemma DoomedBelow(s: State, lo: Page, k: nat)
    ensures forall e: nat | Doomed(s, lo, k, e) :: e <= TableOf(lo + k)
  {
  }

  /** After freeing, the frames of the emptied tables lie first on the free list, highest table
      first, then those of the pages, last slot first, then what was there before. */
  lemma FreedOrder(s: State, lo: Page, down: nat, up: nat)
    requires Inv(s) && down <= up
    ensures s.ws != []
    ensures var u, t := Release(Forget(s, lo, lo + down), lo, lo + up), Freed(s, lo, down, up);
            SlotOrder(s.ptes, s.ws, |s.ws|, lo, lo + up, s.free, u.free) && TableOrder(u, lo, down, t.free)
  {
    hide SlotOrder, TableOrder, FramesOk, Backed, Names, Compact, DropEmptyTables, UnmapLeaving, Packed, Staying;
    SomeSlot(s);
    var s1 := Forget(s, lo, lo + down);
    FramesOnly(s, s1, {});
    LeavingOrder(s1, s1.ws, |s1.ws|, lo, lo + up);
    ReleaseFrames(s1, lo, lo + up);
    TablesOrder(Release(s1, lo, lo + up), lo, down);
  }

  lemma SomeSlot(s: State)
    requires Inv(s)
    ensures s.ws != []
  {
  }

  lemma FreedMemory(s: State, lo: Page, down: nat, up: nat)
    requires Inv(s) && down <= up
    ensures var t := Freed(s, lo, down, up);
            && Inv(t)
            && t.ptes == Outside(s.ptes, lo, lo + up)
            && t.pageFile == Outside(s.pageFile, lo, lo + down)
            && TablesLeft(s.(ptes := t.ptes), lo, down, t.tables)
            && t.ram == s.ram && t.hand == s.hand
            && |t.free| + |t.ptes| + |t.tables| == |s.free| + |s.ptes| + |s.tables|
  {
    var s1 := Forget(s, lo, lo + down);
    FramesOnly(s, s1, {});
    var s2 := Release(s1, lo, lo + up);
    ReleaseExact(s1, lo, lo + up);
    ReleaseFrames(s1, lo, lo + up);
    DropEmptyTablesKeeps(s2, lo, down);
    DropEmptyTablesExact(s2, lo, down);
    DoomedOnly(s2, s.(ptes := s2.ptes), lo, down);
    FreedBacked(s, s2, lo, down, up);
  }

  lemma FreedSlots(s: State, lo: Page, down: nat, up: nat)
    requires s.ws != []
    ensures var t := Freed(s, lo, down, up);
            && t.ws == Packed(s.ws, lo, lo + up) && Stable(s.ws, t.ws)
            && forall k: nat | Prefix(t.ws, k) :: t.last == k % |s.ws|
  {
    PackedStable(s.ws, lo, lo + up);
    var t, n := Freed(s, lo, down, up), |Staying(s.ws, |s.ws|, lo, lo + up)|;
    hide Packed, Prefix, Stable;
    forall k: nat | Prefix(t.ws, k)
      ensures t.last == k % |s.ws|
    {
      PrefixUnique(t.ws, k, n);
    }
  }

  lemma DoomedOnly(s: State, t: State, lo: Page, k: nat)
    requires s.ptes == t.ptes
    ensures forall d :: Doomed(s, lo, k, d) == Doomed(t, lo, k, d)
  {
    assert forall d :: TableEmpty(s, d) == TableEmpty(t, d);
  }

  lemma FreedBacked(s: State, t: State, lo: Page, down: nat, up: nat)
    requires Backed(s) && down <= up && t.ram == s.ram
    requires t.ptes == Outside(s.ptes, lo, lo + up) && t.pageFile == Outside(s.pageFile, lo, lo + down)
    ensures Backed(t)
  {
  }

  lemma ForgetFrames(s: State, lo: Page, hi: Page)
    requires Inv(s)
    ensures s.ws != [] && Forget(s, lo, hi).ws == s.ws && FramesOk(Forget(s, lo, hi), {})
  {
    FramesOnly(s, Forget(s, lo, hi), {});
  }

  /** The three steps of freeMem can be taken one after the other. */
  lemma FreedSteps(s: State, lo: Page, down: nat, up: nat)
    requires Inv(s) && down <= up
    ensures s.ws != [] && FramesOk(Forget(s, lo, lo + down), {})
    ensures FramesOk(Release(Forget(s, lo, lo + down), lo, lo + up), {})
    ensures Inv(Freed(s, lo, down, up))
  {
    hide *;
    ForgetFrames(s, lo, lo + down);
    ReleaseFrames(Forget(s, lo, lo + down), lo, lo + up);
    FreedExact(s, lo, down, up);
  }

  lemma OutsideTransparent(s: State, t: State, lo: Page, down: nat, up: nat, q: Page)
    requires Backed(s) && down <= up && q in s.pageFile && !(lo <= q < lo + up) && t.ram == s.ram
    requires t.ptes == Outside(s.ptes, lo, lo + up) && t.pageFile == Outside(s.pageFile, lo, lo + down)
    ensures q in t.pageFile && (q in t.ptes ==> t.ptes[q].frame < |t.ram|)
    ensures Logical(t, q) == Logical(s, q)
  {
  }

  /** What the program sees outside the range does not change. */
  lemma FreedTransparent(s: State, lo: Page, down: nat, up: nat, q: Page)
    requires Inv(s) && down <= up && q in s.pageFile && !(lo <= q < lo + up)
    ensures var t := Freed(s, lo, down, up);
            && q in t.pageFile && (q in t.ptes ==> t.ptes[q].frame < |t.ram|)
            && Logical(t, q) == Logical(s, q)
  {
    FreedExact(s, lo, down, up);
    hide FramesOk, WsMatches, Compact, Packed, TablesLeft, Freed, Outside;
    OutsideTransparent(s, Freed(s, lo, down, up), lo, down, up, q);
  }

  /** When the size is not a page multiple the last page of the range loses its frame but not
      its copy: the program sees the copy again, and so has lost its writes if and only if the
      page was resident and its content had left the copy behind. */
  lemma FreedTail(s: State, lo: Page, down: nat, up: nat, q: Page)
    requires Inv(s) && q in s.pageFile && lo + down <= q < lo + up
    ensures var t := Freed(s, lo, down, up);
            && q in t.pageFile && q !in t.ptes
            && Logical(t, q) == t.pageFile[q] == s.pageFile[q]
            && (Logical(t, q) != Logical(s, q) <==>
                  q in s.ptes && s.ptes[q].modified && s.pageFile[q] != Some(s.ram[s.ptes[q].frame]))
  {
    hide FramesOk, WsMatches, Compact, Packed, TablesLeft, Freed, Stable, Prefix;
    FreedExact(s, lo, down, up);
  }

  /** A memory with one page, which the program has written since it was loaded. */
  function OneWritten(): State {
    State([2], [1, 1, 0], [[], [1], []], map[0 := 0], map[0 := Pte(1, true, true)], map[0 := Some([])],
          [WsEntry(0, false, NEW_STAMP)], 0, 0)
  }

  /** Freeing one byte of that page takes back the write and leaves the page. */
  lemma LostWrite()
    ensures var s, t := OneWritten(), Freed(OneWritten(), 0, 0, PagesUp(1));
            && Inv(s) && 0 in s.pageFile && Logical(s, 0) == Some([1])
            && 0 in t.pageFile && 0 !in t.ptes && Logical(t, 0) == Some([])
  {
    OneWrittenInv();
    hide Inv;
    FreedTail(OneWritten(), 0, 0, 1, 0);
  }

  lemma OneWrittenInv()
    ensures Inv(OneWritten())
  {
    OneWrittenFrames();
    OneWrittenSlot();
    hide FramesOk, Backed, WsMatches, Compact;
  }

  lemma OneWrittenFrames()
    ensures FramesOk(OneWritten(), {}) && Backed(OneWritten())
  {
  }

  lemma OneWrittenSlot()
    ensures WsMatches(OneWritten()) && Compact(OneWritten().ws, OneWritten().last)
  {
    assert Occupied(OneWritten().ws, 0);
  }

  /** Freeing a byte range is invisible outside it exactly when no page loses writes, which a
      size that is a page multiple guarantees. */
  lemma FreedBytesTransparent(s: State, lo: Page, size: nat, q: Page)
    requires Inv(s) && q in s.pageFile && !(lo <= q < lo + size / PAGE_SIZE)
    ensures size / PAGE_SIZE <= PagesUp(size) <= size / PAGE_SIZE + 1
    ensures var t := Freed(s, lo, size / PAGE_SIZE, PagesUp(size));
            && q in t.pageFile && (q in t.ptes ==> t.ptes[q].frame < |t.ram|)
            && (size % PAGE_SIZE == 0 ==> Logical(t, q) == Logical(s, q))
            && (Logical(t, q) == Logical(s, q) <==>
                  !(size % PAGE_SIZE != 0 && q == lo + size / PAGE_SIZE && q in s.ptes
                    && s.ptes[q].modified && s.pageFile[q] != Some(s.ram[s.ptes[q].frame])))
  {
    hide Inv, Freed, Logical;
    WholeAndRest(size);
    Residents(s);
    if size % PAGE_SIZE != 0 && q == lo + size / PAGE_SIZE {
      FreedTail(s, lo, size / PAGE_SIZE, PagesUp(size), q);
    } else {
      FreedTransparent(s, lo, size / PAGE_SIZE, PagesUp(size), q);
    }
  }

  lemma WholeAndRest(size: nat)
    ensures PagesUp(size) == size / PAGE_SIZE + if size % PAGE_SIZE == 0 then 0 else 1
  {
  }

  lemma Residents(s: State)
    requires Inv(s)
    ensures s.ws != [] && forall q | q in s.ptes :: q in s.pageFile && s.ptes[q].frame < |s.ram|
  {
  }
}
