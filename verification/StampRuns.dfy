/** Time stamps over whole runs: however clock ticks, page faults and freeing interleave, every
    stamp encodes the history of its own page. */
module StampRuns {
  import opened Common
  import opened MemoryState
  import opened Freeing
  import opened Trap
  import opened Ageing
  import opened Execution

  /** For every resident page, what the ticks since it was brought in have seen, newest first. */
  type Histories = map<Page, seq<bool>>

  ghost predicate Stamped(s: State, h: Histories) {
    && s.ptes.Keys <= h.Keys
    && forall i | Occupied(s.ws, i) :: StampedSlot(s.ws, i, h)
  }

  ghost predicate StampedSlot(ws: seq<WsEntry>, i: int, h: Histories)
    requires Occupied(ws, i)
  {
    ws[i].page in h && ws[i].stamp == StampAfter(h[ws[i].page])
  }

  /** A tick records the used bit of every resident page, and a page that is brought in starts
      without a history. */
  function HistoryStep(s: State, h: Histories, e: Event): Histories {
    match e
    case Tick => map p | p in h :: if p in s.ptes then [s.ptes[p].used] + h[p] else h[p]
    case PageFault(p, _) => h[p := []]
    case TableFault(_) => h
    case Read(_, _) => h
    case Write(_, _) => h
    case AllocateMem(_, _) => h
    case FreeMem(_, _) => h
    case Others(_) => h
  }

  lemma TickStamps(s: State, h: Histories)
    requires Inv(s) && Stamped(s, h)
    ensures Stamped(Ticked(s), HistoryStep(s, h, Tick))
  {
    var t, g := Ticked(s), HistoryStep(s, h, Tick);
    assert t.ptes.Keys == s.ptes.Keys;
    forall i | Occupied(t.ws, i)
      ensures StampedSlot(t.ws, i, g)
    {
      assert Occupied(s.ws, i) && StampedSlot(s.ws, i, h);
      ResidentSlot(s, i);
      var p := s.ws[i].page;
      assert g[p] == [s.ptes[p].used] + h[p];
      assert g[p][1..] == h[p];
    }
  }

  lemma ResidentSlot(s: State, i: nat)
    requires Inv(s) && Occupied(s.ws, i)
    ensures s.ws[i].page in s.ptes
  {
  }

  /** The newcomer's slot holds the stamp of an empty history, and no other slot names it. */
  lemma FaultStamps(s: State, t: State, p: Page, victim: nat, h: Histories)
    requires Inv(s) && Stamped(s, h) && p !in s.ptes && Served(s, t, p, victim)
    ensures Stamped(t, h[p := []])
  {
    hide Inv, Full;
    forall i | Occupied(t.ws, i)
      ensures StampedSlot(t.ws, i, h[p := []])
    {
      if i != victim {
        assert Occupied(s.ws, i) && StampedSlot(s.ws, i, h);
        ResidentSlot(s, i);
      }
    }
  }

  /** Packing moves entries with their stamps. */
  lemma FreedStamps(s: State, lo: Page, down: nat, up: nat, h: Histories)
    requires Inv(s) && Stamped(s, h) && down <= up
    ensures s.ws != [] && Stamped(Freed(s, lo, down, up), h)
  {
    hide Inv, Freed, TablesLeft, Packed;
    SlotsExist(s);
    FreedExact(s, lo, down, up);
    var t := Freed(s, lo, down, up);
    forall i | Occupied(t.ws, i)
      ensures StampedSlot(t.ws, i, h)
    {
      PackedFrom(s.ws, lo, lo + up, i);
      var j :| Occupied(s.ws, j) && s.ws[j] == t.ws[i];
      assert StampedSlot(s.ws, j, h);
    }
  }

  /** Every occupied slot of the packed working set is one of the old ones. */
  lemma PackedFrom(ws: seq<WsEntry>, lo: Page, hi: Page, i: nat)
    requires Occupied(Packed(ws, lo, hi), i)
    ensures exists j :: Occupied(ws, j) && ws[j] == Packed(ws, lo, hi)[i]
  {
    var stay := Staying(ws, |ws|, lo, hi);
    assert i < |stay| && stay[i] in stay;
    StayingHas(ws, |ws|, lo, hi);
    var j :| 0 <= j < |ws| && ws[j] == stay[i];
    assert Occupied(ws, j);
  }

  lemma EventStamps(s: State, e: Event, t: State, h: Histories, room: nat)
    requires Inv(s) && Stamped(s, h) && Happens(s, e, t, room)
    ensures Stamped(t, HistoryStep(s, h, e))
  {
    hide Inv, Stamped, Served, Handled, Ticked, Freed, Reserved, HasRoom, PagesUp, Full;
    match e
    case Tick => TickStamps(s, h);
    case PageFault(p, victim) =>
      var u, junk :| Handled(s, u, t, p, victim, junk);
      HandledAbsent(s, u, t, p, victim, junk);
      HandledServed(s, u, t, p, victim, junk);
      FaultStamps(s, t, p, victim, h);
    case FreeMem(lo, size) =>
      WholeAndRest(size);
      FreedStamps(s, lo, size / PAGE_SIZE, PagesUp(size), h);
    case TableFault(_) => SameSlots(s, t, h);
    case Read(_, _) => SameSlots(s, t, h);
    case Write(_, _) => SameSlots(s, t, h);
    case AllocateMem(_, _) => SameSlots(s, t, h);
    case Others(_) => SameSlots(s, t, h);
  }

  lemma HandledAbsent(s: State, u: State, t: State, p: Page, victim: nat, junk: Content)
    requires Handled(s, u, t, p, victim, junk)
    ensures p !in s.ptes
  {
  }

  lemma SameSlots(s: State, t: State, h: Histories)
    requires Stamped(s, h) && t.ws == s.ws && t.ptes.Keys == s.ptes.Keys
    ensures Stamped(t, h)
  {
    forall i | Occupied(t.ws, i)
      ensures StampedSlot(t.ws, i, h)
    {
      assert StampedSlot(s.ws, i, h);
    }
  }

  /** The histories after the first i events. */
  function HistoriesAfter(states: seq<State>, events: seq<Event>, h: Histories, i: nat): Histories
    requires i <= |events| <= |states|
    decreases i
  {
    if i == 0 then h
    else HistoryStep(states[i - 1], HistoriesAfter(states, events, h, i - 1), events[i - 1])
  }

  /** At every point of a run every occupied slot carries the stamp of its page's history. */
  lemma {:induction false} RunStamps(states: seq<State>, events: seq<Event>, h: Histories, room: nat, i: nat)
    requires Run(states, events, room) && i <= |events| && Inv(states[0]) && Stamped(states[0], h)
    ensures Stamped(states[i], HistoriesAfter(states, events, h, i))
    decreases i
  {
    hide Inv, Shows, Stamped, Happens, HistoryStep;
    if i == 0 {
    } else {
      RunStamps(states, events, h, room, i - 1);
      BlankShows(states[0]);
      RunIsFlat(states, events, Blank(states[0]), room, i - 1);
      EventStamps(states[i - 1], events[i - 1], states[i], HistoriesAfter(states, events, h, i - 1), room);
    }
  }

  /** As a number, that is the encoding of what the ticks have seen of the page since it was
      brought in, the bringing in counting as a reference. */
  lemma RunEncodes(states: seq<State>, events: seq<Event>, h: Histories, room: nat, i: nat, slot: nat)
    requires Run(states, events, room) && i <= |events| && Inv(states[0]) && Stamped(states[0], h)
    requires Occupied(states[i].ws, slot)
    ensures var p, g := states[i].ws[slot].page, HistoriesAfter(states, events, h, i);
            p in states[i].ptes && p in g && states[i].ws[slot].stamp == Stamp(g[p] + [true], KEPT)
  {
    hide Inv, Shows, Stamped, Happens, HistoryStep;
    BlankShows(states[0]);
    RunIsFlat(states, events, Blank(states[0]), room, i);
    RunStamps(states, events, h, room, i);
    SlotStamp(states[i], HistoriesAfter(states, events, h, i), slot);
  }

  /** A flat memory that says nothing about contents. */
  function Blank(s: State): Flat {
    map p | p in s.pageFile :: None
  }

  lemma BlankShows(s: State)
    requires Inv(s)
    ensures Shows(s, Blank(s))
  {
    FramesBounded(s);
    hide Inv;
  }

  lemma SlotStamp(s: State, h: Histories, slot: nat)
    requires Inv(s) && Stamped(s, h)
    ensures Occupied(s.ws, slot) ==>
              var p := s.ws[slot].page;
              p in s.ptes && p in h && s.ws[slot].stamp == Stamp(h[p] + [true], KEPT)
  {
    if Occupied(s.ws, slot) {
      assert StampedSlot(s.ws, slot, h);
      ResidentSlot(s, slot);
      StampAfterRecords(h[s.ws[slot].page]);
    }
  }
}
