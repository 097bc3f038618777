/** Eviction and placement of pages as functions of the memory state, and the proof that
    paging is invisible to the program. */
module Paging {
  import opened Common
  import opened MemoryState

  /** pageReplacement: writes a modified victim back, unmaps it and vacates its slot. */
  function WriteBack(s: State, p: Page): State
    requires p in s.ptes && s.ptes[p].frame < |s.ram|
  {
    if s.ptes[p].modified then s.(pageFile := s.pageFile[p := Some(s.ram[s.ptes[p].frame])]) else s
  }

  function Vacate(s: State, v: nat): State
    requires v < |s.ws| && s.last < |s.ws|
  {
    var next := Wrap(s.last + 1, |s.ws|);
    s.(ws := s.ws[v := VACANT], last := next, hand := next)
  }

  ghost predicate Evictable(s: State, v: nat) {
    && v < |s.ws| && s.last < |s.ws| && s.ws[v].page in s.ptes
    && s.ptes[s.ws[v].page].frame < |s.ram|
  }

  ghost function Evict(s: State, v: nat): State
    requires Evictable(s, v)
  {
    Vacate(Unmap(WriteBack(s, s.ws[v].page), s.ws[v].page), v)
  }

  /** pf_read_env_page for a page that the page file holds.  junk is whatever lies in a copy
      that was added without a content. */
  function Load(s: State, p: Page, junk: Content): State
    requires p in s.ptes && s.ptes[p].frame < |s.ram| && p in s.pageFile
  {
    s.(ram := s.ram[s.ptes[p].frame := CopyOr(s.pageFile[p], junk)])
  }

  function Occupy(s: State, v: nat, p: Page): State
    requires v < |s.ws|
  {
    var next := Wrap(v + 1, |s.ws|);
    s.(ws := s.ws[v := WsEntry(p, false, NEW_STAMP)], last := next, hand := next)
  }

  ghost predicate Placeable(s: State, p: Page, v: nat) {
    && s.free != [] && s.free[0] < |s.refs| == |s.ram| && v < |s.ws| && p !in s.ptes
  }

  /** pagePlacement, when it succeeds: a page the page file does not hold is added to it. */
  ghost function Place(s: State, p: Page, v: nat, junk: Content): State
    requires Placeable(s, p, v)
  {
    var linked := Link(Take(s), s.free[0], p);
    var filled := if p in s.pageFile then Load(linked, p, junk)
                  else linked.(pageFile := s.pageFile[p := None]);
    Occupy(filled, v, p)
  }

  // ---------------------------------------------------------------- eviction

  /** After an eviction everything but the compactness of the working set holds: slot v is
      the one vacant slot. */
  ghost predicate Evicted(s: State, v: nat) {
    && FramesOk(s, {}) && Backed(s) && WsMatches(s)
    && v < |s.ws| && s.last < |s.ws| && s.ws[v].empty
    && ((Compact(s.ws, s.last) && v == s.last) || forall i | 0 <= i < |s.ws| && i != v :: !s.ws[i].empty)
  }

  lemma EvictFrames(s: State, v: nat)
    requires Inv(s) && Occupied(s.ws, v)
    ensures Evictable(s, v) && FramesOk(Evict(s, v), {}) && Backed(Evict(s, v))
    ensures Evict(s, v).free == [s.ptes[s.ws[v].page].frame] + s.free
  {
    var p := s.ws[v].page;
    UnmapKeeps(WriteBack(s, p), {}, p);
    assert FramesOk(WriteBack(s, p), {});
  }

  lemma EvictResidents(s: State, v: nat)
    requires Evictable(s, v) && s.ws[v].page in s.pageFile
    ensures var e := Evict(s, v);
            && e.ptes.Keys == s.ptes.Keys - {s.ws[v].page} && e.tables == s.tables
            && e.pageFile.Keys == s.pageFile.Keys
  {
  }

  lemma EvictLeaves(s: State, v: nat)
    requires Inv(s) && Full(s.ws) && v < |s.ws|
    ensures Evictable(s, v) && Evicted(Evict(s, v), v)
  {
    assert Occupied(s.ws, v);
    EvictFrames(s, v);
    EvictResidents(s, v);
    NamesWithout(s.ws, s.ptes.Keys, v);
  }

  /** Eviction changes what the program sees in no page. */
  lemma EvictTransparent(s: State, v: nat, p: Page)
    requires Inv(s) && Occupied(s.ws, v) && p in s.pageFile
    ensures Evictable(s, v) && p in Evict(s, v).pageFile
    ensures p in Evict(s, v).ptes ==> Evict(s, v).ptes[p].frame < |Evict(s, v).ram|
    ensures Logical(Evict(s, v), p) == Logical(s, p)
  {
    EvictFrames(s, v);
  }

  // ---------------------------------------------------------------- placement

  lemma LinkedFrames(s: State, p: Page)
    requires FramesOk(s, {}) && s.free != [] && p !in s.ptes && TableOf(p) in s.tables
    ensures s.free[0] < |s.refs| && FramesOk(Link(Take(s), s.free[0], p), {})
  {
    TakeKeeps(s, {});
    LinkKeeps(Take(s), {} + {s.free[0]}, s.free[0], p);
    assert {} + {s.free[0]} - {s.free[0]} == {};
  }

  lemma PlaceFrames(s: State, p: Page, v: nat, junk: Content)
    requires FramesOk(s, {}) && s.free != [] && v < |s.ws| && p !in s.ptes && TableOf(p) in s.tables
    ensures Placeable(s, p, v) && FramesOk(Place(s, p, v, junk), {})
  {
    LinkedFrames(s, p);
    FramesOnly(Link(Take(s), s.free[0], p), Place(s, p, v, junk), {});
  }

  lemma PlaceBacked(s: State, p: Page, v: nat, junk: Content)
    requires FramesOk(s, {}) && Backed(s) && s.free != [] && v < |s.ws| && p !in s.ptes
    ensures Placeable(s, p, v) && Backed(Place(s, p, v, junk))
  {
    assert s.free[0] in s.free;
  }

  lemma PlaceCompact(s: State, p: Page, v: nat, junk: Content)
    requires Evicted(s, v) && Placeable(s, p, v)
    ensures var e := Place(s, p, v, junk); Compact(e.ws, e.last)
  {
    var e := Place(s, p, v, junk);
    if exists i :: 0 <= i < |s.ws| && i != v && s.ws[i].empty {
      assert v == s.last && forall i | 0 <= i < |s.ws| :: Occupied(s.ws, i) <==> i < s.last;
      if v + 1 < |s.ws| {
        assert e.last == v + 1;
      }
    }
  }

  lemma PlaceKeeps(s: State, p: Page, v: nat, junk: Content)
    requires Evicted(s, v) && s.free != [] && p !in s.ptes && TableOf(p) in s.tables
    ensures Placeable(s, p, v) && Inv(Place(s, p, v, junk))
  {
    PlaceFrames(s, p, v, junk);
    PlaceBacked(s, p, v, junk);
    PlaceResidents(s, p, v, junk);
    NamesWith(s.ws, s.ptes.Keys, v, WsEntry(p, false, NEW_STAMP));
    PlaceCompact(s, p, v, junk);
  }

  /** Placing a page changes what the program sees in no page the page file already held. */
  lemma PlaceTransparent(s: State, p: Page, v: nat, junk: Content, q: Page)
    requires FramesOk(s, {}) && Backed(s) && s.free != [] && v < |s.ws| && p !in s.ptes && q in s.pageFile
    ensures Placeable(s, p, v) && q in Place(s, p, v, junk).pageFile
    ensures q in Place(s, p, v, junk).ptes ==>
              Place(s, p, v, junk).ptes[q].frame < |Place(s, p, v, junk).ram|
    ensures Logical(Place(s, p, v, junk), q) == Logical(s, q)
  {
    assert s.free[0] in s.free;
    assert q in s.ptes ==> s.ptes[q].frame != s.free[0];
    hide FramesOk;
  }

  // ---------------------------------------------------------------- the whole fault

  /** The state after a successful fault on page p; victim is the slot that gives way when
      the working set is full. */
  ghost function Fault(s: State, p: Page, victim: nat, junk: Content): State
    requires Inv(s) && p !in s.ptes && TableOf(p) in s.tables
    requires if Full(s.ws) then victim < |s.ws| else s.free != []
  {
    if Full(s.ws) then
      EvictLeaves(s, victim);
      EvictFrames(s, victim);
      Place(Evict(s, victim), p, victim, junk)
    else
      PlaceFrames(s, p, s.last, junk);
      Place(s, p, s.last, junk)
  }

  lemma PlaceResidents(s: State, p: Page, v: nat, junk: Content)
    requires Placeable(s, p, v)
    ensures var t := Place(s, p, v, junk);
            && t.ptes.Keys == s.ptes.Keys + {p}
            && t.pageFile.Keys == s.pageFile.Keys + {p} && t.tables == s.tables
  {
  }

  lemma FaultKeeps(s: State, p: Page, victim: nat, junk: Content)
    requires Inv(s) && p !in s.ptes && TableOf(p) in s.tables
    requires if Full(s.ws) then victim < |s.ws| else s.free != []
    ensures Inv(Fault(s, p, victim, junk))
  {
    if Full(s.ws) {
      EvictLeaves(s, victim);
      EvictFrames(s, victim);
      PlaceKeeps(Evict(s, victim), p, victim, junk);
    } else {
      NotFullVacant(s);
      PlaceKeeps(s, p, s.last, junk);
    }
  }

  lemma FaultShows(s: State, p: Page, victim: nat, junk: Content, q: Page)
    requires Inv(s) && p !in s.ptes && TableOf(p) in s.tables && q in s.pageFile
    requires if Full(s.ws) then victim < |s.ws| else s.free != []
    ensures var t := Fault(s, p, victim, junk);
            && q in t.pageFile && (q in t.ptes ==> t.ptes[q].frame < |t.ram|)
            && Logical(t, q) == Logical(s, q)
  {
    if Full(s.ws) {
      EvictLeaves(s, victim);
      EvictFrames(s, victim);
      EvictTransparent(s, victim, q);
      PlaceTransparent(Evict(s, victim), p, victim, junk, q);
    } else {
      PlaceTransparent(s, p, s.last, junk, q);
    }
  }

  lemma FaultResidents(s: State, p: Page, victim: nat, junk: Content)
    requires Inv(s) && p !in s.ptes && TableOf(p) in s.tables
    requires if Full(s.ws) then victim < |s.ws| else s.free != []
    ensures var t := Fault(s, p, victim, junk);
            && t.ptes.Keys == (if Full(s.ws) then s.ptes.Keys - {s.ws[victim].page} else s.ptes.Keys) + {p}
            && t.pageFile.Keys == s.pageFile.Keys + {p} && t.tables == s.tables
  {
    if Full(s.ws) {
      EvictLeaves(s, victim);
      EvictFrames(s, victim);
      EvictResidents(s, victim);
      PlaceResidents(Evict(s, victim), p, victim, junk);
    } else {
      PlaceFrames(s, p, s.last, junk);
      PlaceResidents(s, p, s.last, junk);
    }
  }

  /** Page faults are transparent: the invariant is kept, the page becomes resident, every
      page the page file held keeps its content, and only the victim stops being resident. */
  lemma FaultTransparent(s: State, p: Page, victim: nat, junk: Content)
    requires Inv(s) && p !in s.ptes && TableOf(p) in s.tables
    requires if Full(s.ws) then victim < |s.ws| else s.free != []
    ensures var t := Fault(s, p, victim, junk);
            && Inv(t)
            && t.ptes.Keys == (if Full(s.ws) then s.ptes.Keys - {s.ws[victim].page} else s.ptes.Keys) + {p}
            && t.pageFile.Keys == s.pageFile.Keys + {p} && t.tables == s.tables
            && forall q | q in s.pageFile :: Logical(t, q) == Logical(s, q)
  {
    FaultKeeps(s, p, victim, junk);
    FaultResidents(s, p, victim, junk);
    forall q | q in s.pageFile
      ensures Logical(Fault(s, p, victim, junk), q) == Logical(s, q)
    {
      FaultShows(s, p, victim, junk, q);
    }
  }

  /** The slot a non-full working set offers is vacant, so no live entry is overwritten. */
  lemma NotFullVacant(s: State)
    requires Inv(s) && !Full(s.ws)
    ensures s.ws[s.last].empty && Evicted(s, s.last)
  {
    assert !Occupied(s.ws, s.last);
  }

  /** On a full working set the victim's own frame is the one that is handed out again. */
  lemma VictimFrameReused(s: State, p: Page, victim: nat, junk: Content)
    requires Inv(s) && Full(s.ws) && p !in s.ptes && TableOf(p) in s.tables && victim < |s.ws|
    ensures s.ws[victim].page in s.ptes
    ensures var t := Fault(s, p, victim, junk);
            p in t.ptes && t.ptes[p].frame == s.ptes[s.ws[victim].page].frame && t.free == s.free
  {
    EvictLeaves(s, victim);
    EvictFrames(s, victim);
    assert Occupied(s.ws, victim);
  }
}
