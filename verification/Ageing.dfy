/** Working-set time stamps (sched.c, memory_manager.c): every clock tick shifts a stamp two
    places right and sets its top bit when the page was referenced. */
module Ageing {
  import opened MemoryState
  import opened MemoryManager

  /** Whether the i-th newest update, counting from 0, saw a reference. */
  function At(h: seq<bool>, i: nat): bool {
    i < |h| && h[i]
  }

  function Older(h: seq<bool>): seq<bool> {
    if h == [] then [] else h[1..]
  }

  function Pow4(n: nat): (r: nat)
    ensures 0 < r
  {
    if n == 0 then 1 else 4 * Pow4(n - 1)
  }

  /** The stamp that records the n newest bits of a history, newest first. */
  function Stamp(h: seq<bool>, n: nat): (s: nat)
    ensures s < Pow4(n)
    decreases n
  {
    if n == 0 then 0
    else (if At(h, 0) then 2 * Pow4(n - 1) else 0) + Stamp(Older(h), n - 1)
  }

  const KEPT: nat := 16      // the reference bits a 32-bit stamp can hold

  /** (stamp >> 2), with the top bit added when the page was referenced. */
  function Age(stamp: nat, referenced: bool): nat {
    stamp / 4 + if referenced then NEW_STAMP else 0
  }

  // ---------------------------------------------------------------- stamps encode histories

  /** Shifting a stamp drops the oldest bit it records. */
  lemma {:induction false} ShiftDropsOldest(h: seq<bool>, n: nat)
    ensures Stamp(h, n + 1) / 4 == Stamp(h, n)
    ensures Stamp(h, n + 1) % 4 == if At(h, n) then 2 else 0
    decreases n
  {
    if n == 0 {
    } else {
      ShiftDropsOldest(Older(h), n - 1);
      assert At(Older(h), n - 1) == At(h, n);
    }
  }

  lemma Pow4Of15()
    ensures 2 * Pow4(KEPT - 1) == NEW_STAMP && Pow4(KEPT) == 0x1_0000_0000
  {
    assert Pow4(5) == 1024;
    assert Pow4(10) == 1024 * 1024 by { PowSum(5, 5); }
    PowSum(10, 5);
  }

  lemma {:induction false} PowSum(a: nat, b: nat)
    ensures Pow4(a + b) == Pow4(a) * Pow4(b)
  {
    if b == 0 {
    } else {
      PowSum(a, b - 1);
      assert Pow4(a) * (4 * Pow4(b - 1)) == 4 * (Pow4(a) * Pow4(b - 1));
    }
  }

  /** One update turns the stamp of a history into the stamp of the longer history. */
  lemma AgeRecords(h: seq<bool>, referenced: bool)
    ensures Age(Stamp(h, KEPT), referenced) == Stamp([referenced] + h, KEPT)
  {
    ShiftDropsOldest(h, KEPT - 1);
    Pow4Of15();
    assert Older([referenced] + h) == h;
  }

  /** The stamp of a page after the given updates, newest first, since it was inserted. */
  function StampAfter(updates: seq<bool>): nat {
    if updates == [] then NEW_STAMP else Age(StampAfter(updates[1..]), updates[0])
  }

  /** Over a whole run the stamp is that of the updates seen, insertion counting as a
      reference. */
  lemma {:induction false} StampAfterRecords(updates: seq<bool>)
    ensures StampAfter(updates) == Stamp(updates + [true], KEPT)
  {
    hide Stamp, Pow4, Age;
    if updates == [] {
      FirstStamp(KEPT - 1);
      Pow4Of15();
      assert updates + [true] == [true];
    } else {
      StampAfterRecords(updates[1..]);
      AgeRecords(updates[1..] + [true], updates[0]);
      assert [updates[0]] + (updates[1..] + [true]) == updates + [true];
    }
  }

  lemma FirstStamp(n: nat)
    ensures Stamp([true], n + 1) == 2 * Pow4(n)
  {
    assert Older([true]) == [];
    StampOfNothing(n);
  }

  lemma {:induction false} StampOfNothing(n: nat)
    ensures Stamp([], n) == 0
  {
    if n == 0 {
    } else {
      StampOfNothing(n - 1);
    }
  }

  /** Bits 2i + 1 and 2i of a stamp, as a number. */
  function Pair(stamp: nat, i: nat): nat {
    if i == 0 then stamp % 4 else Pair(stamp / 4, i - 1)
  }

  /** A stamp has bits only at positions 31, 29, ..., 1: the pair at 2i + 1, 2i is 10 when the
      (15 - i)-th newest update saw a reference and 00 otherwise. */
  lemma {:induction false} OddBitsOnly(h: seq<bool>, n: nat, i: nat)
    requires i < n
    ensures Pair(Stamp(h, n), i) == if At(h, n - 1 - i) then 2 else 0
    decreases n
  {
    ShiftDropsOldest(h, n - 1);
    if i == 0 {
    } else {
      OddBitsOnly(h, n - 1, i - 1);
    }
  }

  // ---------------------------------------------------------------- comparing stamps

  /** At the newest update on which they differ, among the n newest, g saw a reference. */
  ghost predicate LessRecent(h: seq<bool>, g: seq<bool>, n: nat) {
    exists i: nat :: i < n && Differ(h, g, i)
  }

  ghost predicate Differ(h: seq<bool>, g: seq<bool>, i: nat) {
    !At(h, i) && At(g, i) && Agree(h, g, i)
  }

  ghost predicate Agree(h: seq<bool>, g: seq<bool>, n: nat) {
    forall j: nat | j < n :: At(h, j) == At(g, j)
  }

  lemma OlderAt(h: seq<bool>, g: seq<bool>, n: nat)
    requires At(h, 0) == At(g, 0)
    ensures Agree(h, g, n + 1) <==> Agree(Older(h), Older(g), n)
  {
    assert forall j: nat :: At(Older(h), j) == At(h, j + 1) && At(Older(g), j) == At(g, j + 1);
    if Agree(h, g, n + 1) {
      assert forall j: nat | j < n :: At(Older(h), j) == At(Older(g), j);
    }
    if Agree(Older(h), Older(g), n) {
      forall j: nat | j < n + 1
        ensures At(h, j) == At(g, j)
      {
        if 0 < j { assert At(Older(h), j - 1) == At(Older(g), j - 1); }
      }
    }
  }

  lemma LessRecentStep(h: seq<bool>, g: seq<bool>, n: nat)
    requires At(h, 0) == At(g, 0)
    ensures LessRecent(h, g, n + 1) <==> LessRecent(Older(h), Older(g), n)
  {
    forall i: nat
      ensures Differ(h, g, i + 1) <==> Differ(Older(h), Older(g), i)
    {
      OlderAt(h, g, i);
    }
    if LessRecent(h, g, n + 1) {
      var i: nat :| i < n + 1 && Differ(h, g, i);
      assert 0 < i && Differ(Older(h), Older(g), i - 1);
    }
    if LessRecent(Older(h), Older(g), n) {
      var i: nat :| i < n && Differ(Older(h), Older(g), i);
      assert Differ(h, g, i + 1);
    }
  }

  /** Comparing two stamps as numbers compares the recorded histories newest bit first. */
  lemma {:induction false} StampOrder(h: seq<bool>, g: seq<bool>, n: nat)
    ensures Stamp(h, n) < Stamp(g, n) <==> LessRecent(h, g, n)
    ensures Stamp(h, n) == Stamp(g, n) <==> Agree(h, g, n)
    decreases n
  {
    if n == 0 {
    } else {
      if At(h, 0) == At(g, 0) {
        StampOrder(Older(h), Older(g), n - 1);
        LessRecentStep(h, g, n - 1);
        OlderAt(h, g, n - 1);
      } else if At(g, 0) {
        assert Differ(h, g, 0);
      }
    }
  }

  // ---------------------------------------------------------------- the update

  /** Slot i after an update: an occupied slot ages by the used bit of its page. */
  function AgedEntry(e: WsEntry, ptes: map<Page, Pte>): WsEntry {
    if e.empty then e else e.(stamp := Age(e.stamp, e.page in ptes && ptes[e.page].used))
  }

  function AgedSlots(ws: seq<WsEntry>, ptes: map<Page, Pte>): (r: seq<WsEntry>)
    ensures |r| == |ws|
  {
    seq(|ws|, i requires 0 <= i < |ws| => AgedEntry(ws[i], ptes))
  }

  function AllUnused(ptes: map<Page, Pte>): map<Page, Pte> {
    map p | p in ptes :: ptes[p].(used := false)
  }

  /** The memory after a clock tick. */
  function Ticked(s: State): State {
    s.(ws := AgedSlots(s.ws, s.ptes), ptes := AllUnused(s.ptes))
  }

  /** From s to t every stamp is shifted two places and gets its top bit if its page was used, and
      all used bits are taken. */
  ghost predicate ShiftedAndTaken(s: State, t: State) {
    && t.ptes.Keys == s.ptes.Keys && |t.ws| == |s.ws|
    && (forall p | p in s.ptes :: t.ptes[p] == s.ptes[p].(used := false))
    && forall i | 0 <= i < |s.ws| ::
         var e := s.ws[i];
         t.ws[i] == if e.empty then e
                    else e.(stamp := e.stamp / 4 + if e.page in s.ptes && s.ptes[e.page].used then 0x8000_0000 else 0)
  }

  lemma TickedExact(s: State)
    ensures ShiftedAndTaken(s, Ticked(s))
  {
  }

  /** A tick keeps the memory in order and shows in no page. */
  lemma TickedKeeps(s: State)
    requires Inv(s)
    ensures Inv(Ticked(s))
    ensures forall p | p in s.pageFile ::
              (p in s.ptes ==> s.ptes[p].frame < |s.ram|) && Logical(Ticked(s), p) == Logical(s, p)
  {
    TickedFrames(s);
    TickedSlots(s);
    hide FramesOk, WsMatches, Compact, AgedSlots;
  }

  lemma TickedFrames(s: State)
    requires FramesOk(s, {})
    ensures FramesOk(Ticked(s), {})
  {
    hide AgedSlots;
  }

  lemma TickedSlots(s: State)
    requires WsMatches(s) && Compact(s.ws, s.last)
    ensures WsMatches(Ticked(s)) && Compact(Ticked(s).ws, s.last)
  {
    assert Ticked(s).ptes.Keys == s.ptes.Keys;
    SamePages(s.ws, Ticked(s).ws, s.ptes.Keys, s.last);
    hide AgedSlots, AllUnused, Compact;
  }

  /** Names and compactness depend only on which slots are occupied and by which pages. */
  lemma SamePages(ws: seq<WsEntry>, aged: seq<WsEntry>, pages: set<Page>, last: nat)
    requires |aged| == |ws| && Names(ws, pages) && Compact(ws, last)
    requires forall i | 0 <= i < |ws| :: aged[i].empty == ws[i].empty && aged[i].page == ws[i].page
    ensures Names(aged, pages) && Compact(aged, last)
  {
    forall p | p in pages
      ensures exists i :: Occupied(aged, i) && aged[i].page == p
    {
      var i :| Occupied(ws, i) && ws[i].page == p;
      assert Occupied(aged, i) && aged[i].page == p;
    }
  }

  /** update_WS_time_stamps for the page working set: every occupied slot records whether its
      page was used since the last update, and the used bit is taken. */
  method UpdateWsTimeStamps(m: Machine)
    requires WsMatches(m.S())
    modifies m`ptes, m.ws
    ensures m.S() == Ticked(old(m.S()))
    ensures ShiftedAndTaken(old(m.S()), m.S())
    ensures old(m.Valid()) ==> m.Valid()
  {
    hide WsMatches, AgedSoFar, Age, AgedSlots, AllUnused, ShiftedAndTaken, Inv;
    ghost var s0 := m.S();
    ghost var ws0, ptes0 := m.ws[..], m.ptes;
    AgedNone(ws0, ptes0);
    for i := 0 to m.ws.Length
      invariant AgedSoFar(ws0, ptes0, m.ws[..], m.ptes, i)
    {
      AgedStep(old(m.S()), m.ws[..], m.ptes, i);
      if !m.ws[i].empty {
        var page, oldTimeStamp := m.ws[i].page, m.ws[i].stamp;
        var used, modified := m.GetPagePermissions(page);
        m.ws[i] := m.ws[i].(stamp := Age(oldTimeStamp, used));
        if used { m.ClearUsedBit(page); }
      }
    }
    AgedAll(s0, m.ws[..], m.ptes);
    TickedExact(s0);
    if Inv(s0) { TickedKeeps(s0); }
  }

  /** The first i slots have been updated and the used bits of their pages taken. */
  ghost predicate AgedSoFar(ws0: seq<WsEntry>, ptes0: map<Page, Pte>, ws: seq<WsEntry>, ptes: map<Page, Pte>, i: nat) {
    && |ws| == |ws0| && ptes.Keys == ptes0.Keys
    && (forall j | 0 <= j < |ws| :: ws[j] == if j < i then AgedEntry(ws0[j], ptes0) else ws0[j])
    && (forall p | p in ptes :: ptes[p] == ptes0[p] || ptes[p] == ptes0[p].(used := false))
    && forall j | Occupied(ws0, j) && ws0[j].page in ptes ::
         ptes[ws0[j].page] == if j < i then ptes0[ws0[j].page].(used := false) else ptes0[ws0[j].page]
  }

  lemma AgedNone(ws: seq<WsEntry>, ptes: map<Page, Pte>)
    ensures AgedSoFar(ws, ptes, ws, ptes, 0)
  {
  }

  lemma AgedStep(s: State, ws: seq<WsEntry>, ptes: map<Page, Pte>, i: nat)
    requires WsMatches(s) && AgedSoFar(s.ws, s.ptes, ws, ptes, i) && i < |s.ws| == |ws|
    ensures if ws[i].empty then AgedSoFar(s.ws, s.ptes, ws, ptes, i + 1)
            else
              && ws[i].page in ptes
              && var e, pte := ws[i], ptes[ws[i].page];
                 AgedSoFar(s.ws, s.ptes, ws[i := e.(stamp := Age(e.stamp, pte.used))],
                           if pte.used then ptes[e.page := pte.(used := false)] else ptes, i + 1)
  {
    hide Age;
    assert Occupied(s.ws, i) <==> !ws[i].empty;
  }

  lemma AgedAll(s: State, ws: seq<WsEntry>, ptes: map<Page, Pte>)
    requires WsMatches(s) && AgedSoFar(s.ws, s.ptes, ws, ptes, |s.ws|)
    ensures ws == AgedSlots(s.ws, s.ptes) && ptes == AllUnused(s.ptes)
  {
    forall p | p in ptes
      ensures ptes[p] == s.ptes[p].(used := false)
    {
      var j :| Occupied(s.ws, j) && s.ws[j].page == p;
    }
  }
}
