/** The page-fault handler of trap.c: the modified clock over the working set, eviction,
    placement, and the handler that combines them. */
module Trap {
  import opened Common
  import opened Clock
  import opened MemoryState
  import opened Paging
  import opened MemoryManager

  // ---------------------------------------------------------------- bits of the working set

  function BitsOfPage(ptes: map<Page, Pte>, p: Page): Bits {
    if p in ptes then Bits(ptes[p].used, ptes[p].modified) else Bits(false, false)
  }

  /** The used and modified bits, slot by slot. */
  function SlotBits(s: State): (b: seq<Bits>)
    ensures |b| == |s.ws|
  {
    seq(|s.ws|, i requires 0 <= i < |s.ws| => BitsOfPage(s.ptes, s.ws[i].page))
  }

  /** The states differ at most in used bits and in the hand. */
  ghost predicate SameButUsed(s: State, t: State) {
    && t == s.(ptes := t.ptes, hand := t.hand)
    && t.ptes.Keys == s.ptes.Keys
    && forall p | p in s.ptes :: t.ptes[p] == s.ptes[p].(used := t.ptes[p].used)
  }

  lemma ClearUsedSlot(s: State, i: nat)
    requires WsMatches(s) && Full(s.ws) && i < |s.ws|
    ensures SlotBits(ClearUsed(s, s.ws[i].page)) == SlotBits(s)[i := SlotBits(s)[i].(used := false)]
  {
    assert forall j | 0 <= j < |s.ws| :: Occupied(s.ws, j);
  }

  /** Used bits concern neither the invariant nor what the program sees. */
  lemma UsedKeeps(s: State, t: State)
    requires Inv(s) && SameButUsed(s, t)
    ensures Inv(t) && forall p | p in s.pageFile :: Logical(t, p) == Logical(s, p)
  {
  }

  // ---------------------------------------------------------------- the clock

  /** What a look at slot i does: the hand moves past a slot of the wanted class, and any
      other loses its used bit on the second try. */
  ghost predicate Tried(s: State, t: State, try1: bool, i: nat, found: bool)
    requires i < |s.ws|
  {
    && SameButUsed(s, t)
    && (found <==> SlotBits(s)[i] == Wanted(try1))
    && t.hand == (if found then i + 1 else s.hand)
    && SlotBits(t) == if try1 || found then SlotBits(s) else SlotBits(s)[i := SlotBits(s)[i].(used := false)]
  }

  /** The body of the probe's loop: reports whether slot i is of the wanted class, and on
      the second try takes its used bit if it is not. */
  method TrySlot(m: Machine, try1: bool, i: nat) returns (found: bool)
    requires WsMatches(m.S()) && Full(m.ws[..]) && i < m.ws.Length
    modifies m`ptes, m`hand
    ensures Tried(old(m.S()), m.S(), try1, i, found)
  {
    var page := m.ws[i].page;
    var used, modified := m.GetPagePermissions(page);
    assert SlotBits(m.S())[i] == Bits(used, modified);
    if try1 {
      if !used && !modified {
        m.hand := i + 1;
        return true;
      }
    } else {
      if !used && modified {
        m.hand := i + 1;
        return true;
      }
      ClearUsedSlot(m.S(), i);
      m.ClearUsedBit(page);
    }
    return false;
  }

  lemma SameButUsedTrans(s: State, t: State, u: State)
    requires SameButUsed(s, t) && SameButUsed(t, u)
    ensures SameButUsed(s, u) && (WsMatches(s) ==> WsMatches(u))
  {
  }

  /** What a probe of slots [start, end) leaves when it returns v. */
  ghost predicate Probed(s: State, t: State, try1: bool, start: nat, end: nat, v: int) {
    && SameButUsed(s, t)
    && v == Probe(try1, SlotBits(s), start, end)
    && SlotBits(t) == ProbeBits(try1, SlotBits(s), start, end)
    && t.hand == if v == -1 then s.hand else v + 1
  }

  /** Slots [start, i) have been tried in vain. */
  ghost predicate Passed(s0: State, s: State, try1: bool, start: nat, end: nat, i: nat) {
    && start <= i && (i <= end || i == start) && end <= |s0.ws|
    && SameButUsed(s0, s) && WsMatches(s) && Full(s.ws) && s.hand == s0.hand
    && SlotBits(s) == (if try1 then SlotBits(s0) else Unused(SlotBits(s0), start, i))
    && Scan(try1, SlotBits(s0), i, end) == Scan(try1, SlotBits(s0), start, end)
  }

  lemma PassedNone(s: State, try1: bool, start: nat, end: nat)
    requires WsMatches(s) && Full(s.ws) && end <= |s.ws|
    ensures Passed(s, s, try1, start, end, start)
  {
    UnusedNone(SlotBits(s), start, start);
  }

  lemma PassedStep(s0: State, s: State, t: State, try1: bool, start: nat, end: nat, i: nat, found: bool)
    requires Passed(s0, s, try1, start, end, i) && i < end && i < |s.ws| && Tried(s, t, try1, i, found)
    ensures if found then Probed(s0, t, try1, start, end, i) else Passed(s0, t, try1, start, end, i + 1)
  {
    var bits := SlotBits(s0);
    hide SlotBits, Unused;
    SameButUsedTrans(s0, s, t);
    UnusedStep(bits, start, i);
    ScanUnfold(try1, bits, i, end);
    ProbeUnfold(try1, bits, start, end);
  }

  lemma PassedAll(s0: State, s: State, try1: bool, start: nat, end: nat, i: nat)
    requires Passed(s0, s, try1, start, end, i) && end <= i
    ensures Probed(s0, s, try1, start, end, -1)
  {
    var bits := SlotBits(s0);
    hide SlotBits, Unused;
    ScanUnfold(try1, bits, i, end);
    ProbeUnfold(try1, bits, start, end);
    if end < start {
      UnusedNone(bits, start, i);
      UnusedNone(bits, start, end);
    }
  }

  lemma NotProbed(s: State, try1: bool, start: nat, end: nat)
    requires |s.ws| < end
    ensures Probed(s, s, try1, start, end, -1)
  {
  }

  lemma PassedReady(s0: State, s: State, try1: bool, start: nat, end: nat, i: nat)
    requires Passed(s0, s, try1, start, end, i)
    ensures WsMatches(s) && Full(s.ws) && |s.ws| == |s0.ws| && end <= |s.ws|
  {
  }

  /** A -1 is returned when the range ends past the working set or holds no slot of the
      wanted class.  The second try takes the used bit of every slot it passes. */
  method GetVictimIndex(m: Machine, try1: bool, start: nat, end: nat) returns (v: int)
    requires WsMatches(m.S()) && Full(m.ws[..])
    modifies m`ptes, m`hand
    ensures Probed(old(m.S()), m.S(), try1, start, end, v)
  {
    ghost var s0 := m.S();
    hide *;
    if m.ws.Length < end {
      NotProbed(s0, try1, start, end);
      return -1;
    }
    PassedNone(s0, try1, start, end);
    var i := start;
    while i < end
      invariant start <= i && Passed(s0, m.S(), try1, start, end, i)
    {
      ghost var s := m.S();
      PassedReady(s0, s, try1, start, end, i);
      var found := TrySlot(m, try1, i);
      PassedStep(s0, s, m.S(), try1, start, end, i, found);
      if found { return i; }
      i := i + 1;
    }
    PassedAll(s0, m.S(), try1, start, end, i);
    return -1;
  }

  lemma SameItself(s: State)
    ensures SameButUsed(s, s)
  {
  }

  /** The two probes of one try: from the hand to the end, then from the start to the hand. */
  method ProbeRound(m: Machine, try1: bool) returns (ret: int)
    requires WsMatches(m.S()) && Full(m.ws[..])
    modifies m`ptes, m`hand
    ensures SameButUsed(old(m.S()), m.S()) && WsMatches(m.S())
    ensures Outcome(ret, SlotBits(m.S())) == Sweep(try1, old(SlotBits(m.S())), old(m.hand))
    ensures m.hand == if ret == -1 then old(m.hand) else ret + 1
    ensures 0 <= ret || ret == -1
  {
    ghost var s0 := m.S();
    SameItself(s0);
    hide WsMatches, SameButUsed, SlotBits, Probe, ProbeBits;
    ret := GetVictimIndex(m, try1, m.hand, m.ws.Length);
    SameButUsedTrans(s0, s0, m.S());
    if ret == -1 {
      ghost var s1 := m.S();
      ret := GetVictimIndex(m, try1, 0, m.hand);
      SameButUsedTrans(s0, s1, m.S());
    }
  }

  /** One turn of the endless loop: the first try, and the second if the first fails. */
  method ClockTurn(m: Machine) returns (ret: int)
    requires WsMatches(m.S()) && Full(m.ws[..])
    modifies m`ptes, m`hand
    ensures SameButUsed(old(m.S()), m.S()) && WsMatches(m.S())
    ensures Outcome(ret, SlotBits(m.S())) == Round(old(SlotBits(m.S())), old(m.hand))
    ensures m.hand == if ret == -1 then old(m.hand) else ret + 1
    ensures 0 <= ret || ret == -1
  {
    hide WsMatches, SameButUsed, SlotBits, Sweep;
    ghost var s0 := m.S();
    ret := ProbeRound(m, true);
    if ret == -1 {
      ghost var s1 := m.S();
      ret := ProbeRound(m, false);
      SameButUsedTrans(s0, s1, m.S());
    }
  }

  lemma SlotsReady(m: Machine)
    requires m.Valid()
    ensures WsMatches(m.S()) && 0 < m.ws.Length == |SlotBits(m.S())|
  {
  }

  lemma VictimInRange(bits: seq<Bits>, hand: nat, v: int)
    requires IsVictim(bits, hand, v)
    ensures 0 <= v < |bits|
  {
  }

  /** Returns the slot of least class, nearest the hand among equals.  The loop has no exit
      but a victim and needs at most two turns. */
  method ModifiedClock(m: Machine) returns (victim: nat)
    requires m.Valid() && Full(m.ws[..]) && m.hand <= m.ws.Length
    modifies m`ptes, m`hand
    ensures SameButUsed(old(m.S()), m.S()) && m.hand == victim + 1
    ensures IsVictim(old(SlotBits(m.S())), old(m.hand), victim)
    ensures Aged(old(SlotBits(m.S())), SlotBits(m.S()), old(m.hand), victim)
  {
    hide *;
    ghost var s0, hand := m.S(), m.hand;
    ghost var bits, turns := SlotBits(s0), 2;
    SlotsReady(m);
    TwoRoundsSuffice(bits, hand);
    VictimInRange(bits, hand, Rounds(bits, hand, 2).victim);
    SameItself(s0);
    while true
      invariant 0 <= turns && m.hand == hand && Full(m.ws[..])
      invariant SameButUsed(s0, m.S()) && WsMatches(m.S())
      invariant Rounds(SlotBits(m.S()), hand, turns) == Rounds(bits, hand, 2)
      decreases turns
    {
      ghost var s1 := m.S();
      RoundsUnfold(SlotBits(s1), hand, turns);
      var ret := ClockTurn(m);
      SameButUsedTrans(s0, s1, m.S());
      if ret != -1 { return ret; }
      turns := turns - 1;
    }
  }

  // ---------------------------------------------------------------- replacement and placement

  lemma EvictReady(s: State, v: nat)
    requires Inv(s) && Full(s.ws) && v < |s.ws|
    ensures Evictable(s, v) && Tabled(s)
    ensures s.ptes[s.ws[v].page].frame < |s.refs| && 0 < s.refs[s.ptes[s.ws[v].page].frame]
  {
    assert Occupied(s.ws, v);
    ResidentFrame(s, s.ws[v].page);
  }

  /** What unmapping the victim needs, once it has been written back. */
  lemma WrittenReady(s: State, v: nat)
    requires Inv(s) && Full(s.ws) && v < |s.ws|
    ensures Evictable(s, v) && s.last < |s.ws|
    ensures var t, out := WriteBack(s, s.ws[v].page), s.ws[v].page;
            && Tabled(t) && out in t.ptes && t.ptes[out].frame < |t.refs| && 0 < t.refs[t.ptes[out].frame]
  {
    hide Inv, Full;
    EvictReady(s, v);
  }

  /** From s to t the page of slot v is unmapped, with a copy of its frame if it was modified; the
      slot is cleared and the frame is the first free one. */
  ghost predicate GivenUp(s: State, t: State, v: nat) {
    && v < |s.ws| && s.ws[v].page in s.ptes && s.ptes[s.ws[v].page].frame < |s.ram|
    && var out := s.ws[v].page;
    && t.last == t.hand == (s.last + 1) % |s.ws|
    && t.ws == s.ws[v := WsEntry(0, true, 0)]
    && t.ptes == s.ptes - {out} && t.free == [s.ptes[out].frame] + s.free
    && t.pageFile == if s.ptes[out].modified then s.pageFile[out := Some(s.ram[s.ptes[out].frame])] else s.pageFile
  }

  lemma EvictEffect(s: State, v: nat)
    requires Inv(s) && Full(s.ws) && v < |s.ws|
    ensures Evictable(s, v) && GivenUp(s, Evict(s, v), v)
  {
    hide Inv, Full, FramesOk, Backed, Tabled, Evict;
    EvictReady(s, v);
    EvictFields(s, v);
    EvictFree(s, v);
  }

  lemma EvictFields(s: State, v: nat)
    requires Evictable(s, v)
    ensures var t, out := Evict(s, v), s.ws[v].page;
            && t.last == t.hand == (s.last + 1) % |s.ws|
            && t.ws == s.ws[v := WsEntry(0, true, 0)] && t.ptes == s.ptes - {out}
            && t.pageFile == if s.ptes[out].modified then s.pageFile[out := Some(s.ram[s.ptes[out].frame])]
                             else s.pageFile
  {
  }

  lemma EvictFree(s: State, v: nat)
    requires Inv(s) && Full(s.ws) && v < |s.ws|
    ensures Evictable(s, v) && Evict(s, v).free == [s.ptes[s.ws[v].page].frame] + s.free
  {
    hide Inv;
    EvictFrames(s, v);
  }

  /** Writes the victim back when it is modified, unmaps it and clears its slot. */
  method PageReplacement(m: Machine, victim: nat)
    requires m.Valid() && Full(m.ws[..]) && victim < m.ws.Length
    modifies m`pageFile, m`free, m`ptes, m`last, m`hand, m.refs, m.ws
    ensures Evictable(old(m.S()), victim) && m.S() == Evict(old(m.S()), victim)
    ensures GivenUp(old(m.S()), m.S(), victim)
  {
    hide Inv, Full, GivenUp, Tabled, Wrap, Drop;
    ghost var s0 := m.S();
    var page := m.ws[victim].page;
    EvictReady(m.S(), victim);
    WrittenReady(m.S(), victim);
    EvictEffect(m.S(), victim);
    var used, modified := m.GetPagePermissions(page);
    if modified {
      var frame := m.GetFrameInfo(page);
      m.PfUpdate(page, frame.value);
    }
    assert m.S() == WriteBack(s0, page);
    m.UnmapFrame(page);
    assert m.S() == Unmap(WriteBack(s0, page), page);
    hide Unmap, WriteBack;
    m.WsClearEntry(victim);
    m.MoveHands(m.last);
  }

  /** How a fault ends; the last three are panics of the kernel. */
  datatype FaultEnd = Done | NoMemory | NoPageFile | InvalidAccess

  /** What pagePlacement does with a page on a machine in state s. */
  ghost function PlacementEnd(s: State, p: Page, onStack: bool, fileRoom: nat): FaultEnd {
    if s.free == [] then NoMemory
    else if p in s.pageFile then Done
    else if !onStack then InvalidAccess
    else if |s.pageFile| < fileRoom then Done
    else NoPageFile
  }

  /** Brings page p into a fresh frame and into slot victim.  An access outside both the page
      file and the stack leaves the memory as it was before the kernel panics. */
  method PagePlacement(m: Machine, p: Page, onStack: bool, victim: nat, junk: Content) returns (end: FaultEnd)
    requires FramesOk(m.S(), {}) && p !in m.ptes && TableOf(p) in m.tables && victim < m.ws.Length
    modifies m`pageFile, m`free, m`tables, m`ptes, m`last, m`hand, m.refs, m.ram, m.ws
    ensures end == PlacementEnd(old(m.S()), p, onStack, m.fileRoom)
    ensures end == Done ==> Placeable(old(m.S()), p, victim) && m.S() == Place(old(m.S()), p, victim, junk)
    ensures end == Done ==>
              && m.last == m.hand == (victim + 1) % m.ws.Length
              && m.ws[..] == old(m.ws[..])[victim := WsEntry(p, false, NEW_STAMP)]
              && m.ptes == old(m.ptes)[p := Pte(old(m.free)[0], false, false)]
              && m.pageFile == if p in old(m.pageFile) then old(m.pageFile) else old(m.pageFile)[p := None]
    ensures end == NoMemory || end == InvalidAccess ==> m.S() == old(m.S())
  {
    ghost var s0 := m.S();
    if m.free != [] {
      LinkedFrames(s0, p);
    }
    var r := m.AllocateFrame();
    if r.None? { return NoMemory; }
    assert r.value < m.refs.Length && Tabled(m.S());
    hide FramesOk;
    var mapped := m.MapFrame(r.value, p);
    assert m.S() == Link(Take(s0), r.value, p);
    var read := m.PfRead(p, junk);
    if !read {
      if onStack {
        var added := m.PfAddEmpty(p, false);
        if !added { return NoPageFile; }
      } else {
        m.UnmapFrame(p);
        LinkUndone(s0, p);
        return InvalidAccess;
      }
    }
    m.WsSetEntry(victim, p);
    m.MoveHands(victim);
    return Done;
  }

  /** Unmapping a page right after it was mapped into a fresh frame restores the memory. */
  lemma LinkUndone(s: State, p: Page)
    requires FramesOk(s, {}) && s.free != [] && p !in s.ptes
    ensures s.free[0] < |s.refs| && Unmap(Link(Take(s), s.free[0], p), p) == s
  {
    assert s.free[0] in s.free;
    var linked := Link(Take(s), s.free[0], p);
    assert linked.ptes - {p} == s.ptes;
    assert [s.free[0]] + s.free[1..] == s.free;
    assert linked.refs[s.free[0] := 0] == s.refs;
  }

  // ---------------------------------------------------------------- the handler

  /** What a fault on page p leaves behind when it succeeds. */
  ghost predicate Served(s: State, t: State, p: Page, victim: nat) {
    && Inv(s) && Inv(t) && victim < |s.ws|
    && p in t.ptes && t.tables == s.tables
    && t.pageFile.Keys == s.pageFile.Keys + {p}
    && (forall q | q in s.pageFile :: Logical(t, q) == Logical(s, q))
    && t.ws == s.ws[victim := WsEntry(p, false, NEW_STAMP)]
    && if Full(s.ws) then
         && IsVictim(SlotBits(s), s.hand, victim)
         && t.ptes.Keys == s.ptes.Keys - {s.ws[victim].page} + {p}
         && t.free == s.free
       else
         && victim == s.last && s.ws[victim].empty
         && t.ptes.Keys == s.ptes.Keys + {p}
  }

  /** What the handler does on a fault on page p: on a full working set the clock ages the
      used bits, which leaves u, and its victim is evicted before the page is placed; otherwise
      the page is placed in the slot at page_last_WS_index. */
  ghost predicate Handled(s: State, u: State, t: State, p: Page, victim: nat, junk: Content) {
    && p !in s.ptes && TableOf(p) in s.tables
    && if Full(s.ws) then
         && SameButUsed(s, u) && u.hand == victim + 1
         && IsVictim(SlotBits(s), s.hand, victim) && Aged(SlotBits(s), SlotBits(u), s.hand, victim)
         && Evictable(u, victim) && Placeable(Evict(u, victim), p, victim)
         && t == Place(Evict(u, victim), p, victim, junk)
       else
         && u == s && victim == s.last
         && Placeable(s, p, victim) && t == Place(s, p, victim, junk)
  }

  /** Handling a fault serves it. */
  lemma HandledServed(s: State, u: State, t: State, p: Page, victim: nat, junk: Content)
    requires Inv(s) && Handled(s, u, t, p, victim, junk)
    ensures Served(s, t, p, victim) && t.hand == Wrap(victim + 1, |s.ws|)
  {
    hide Inv, Served, SlotBits, IsVictim, Aged, SameButUsed, Evict, Full;
    if Full(s.ws) {
      FullReady(s, u, p, victim, junk);
      PlaceHand(Evict(u, victim), p, victim, junk);
    } else {
      SpareReady(s, p, junk);
      PlaceHand(s, p, victim, junk);
    }
  }

  /** The whole effect of a handled fault.  The frame is the victim's on a full working set and the
      first free one otherwise; the victim's copy changes only if it was modified; the newcomer's
      bits are clear and its frame holds its copy; both hands move past the slot. */
  ghost predicate Effect(s: State, u: State, t: State, p: Page, victim: nat, junk: Content) {
    && victim < |s.ws| && (Full(s.ws) ==> s.ws[victim].page in s.ptes) && (!Full(s.ws) ==> s.free != [])
    && var full, out := Full(s.ws), s.ws[victim].page;
    && var f := if full then s.ptes[out].frame else s.free[0];
    && f < |s.ram| == |s.refs|
    && t.tables == s.tables
    && t.ws == s.ws[victim := WsEntry(p, false, NEW_STAMP)]
    && t.last == t.hand == (victim + 1) % |s.ws|
    && t.ptes == (if full then u.ptes - {out} else s.ptes)[p := Pte(f, false, false)]
    && t.free == (if full then s.free else s.free[1..])
    && t.refs == s.refs[f := 1]
    && var file := if full && s.ptes[out].modified then s.pageFile[out := Some(s.ram[f])] else s.pageFile;
    && t.pageFile == (if p in file then file else file[p := None])
    && t.ram == if p !in file then s.ram else s.ram[f := if file[p].Some? then file[p].value else junk]
  }

  lemma HandledExact(s: State, u: State, t: State, p: Page, victim: nat, junk: Content)
    requires Inv(s) && Handled(s, u, t, p, victim, junk)
    ensures Effect(s, u, t, p, victim, junk)
  {
    if Full(s.ws) {
      HandledFull(s, u, t, p, victim, junk);
    } else {
      HandledSpare(s, u, t, p, victim, junk);
    }
  }

  lemma HandledSpare(s: State, u: State, t: State, p: Page, victim: nat, junk: Content)
    requires Inv(s) && !Full(s.ws) && Handled(s, u, t, p, victim, junk)
    ensures Effect(s, u, t, p, victim, junk)
  {
    assert s.free[0] in s.free;
    assert s.refs[s.free[0]] == 0;
  }

  lemma HandledFull(s: State, u: State, t: State, p: Page, victim: nat, junk: Content)
    requires Inv(s) && Full(s.ws) && Handled(s, u, t, p, victim, junk)
    ensures Effect(s, u, t, p, victim, junk)
  {
    hide FramesOk, Backed, WsMatches, Compact, IsVictim, SlotBits, Aged;
    var out := s.ws[victim].page;
    EvictReady(s, victim);
    ResidentFrame(s, out);
    assert s.refs[s.ptes[out].frame] == 1;
  }

  lemma PlaceHand(s: State, p: Page, v: nat, junk: Content)
    requires Placeable(s, p, v)
    ensures Place(s, p, v, junk).hand == Wrap(v + 1, |s.ws|)
  {
  }

  lemma ServedFull(s: State, u: State, p: Page, victim: nat, junk: Content)
    requires Inv(s) && SameButUsed(s, u) && Full(s.ws) && IsVictim(SlotBits(s), s.hand, victim)
    requires p !in s.ptes && TableOf(p) in s.tables
    ensures Inv(u) && Full(u.ws) && victim < |s.ws|
    ensures Served(s, Fault(u, p, victim, junk), p, victim)
  {
    UsedKeeps(s, u);
    assert victim < |SlotBits(s)|;
    hide FramesOk, Backed, WsMatches, SlotBits, IsVictim;
    FaultTransparent(u, p, victim, junk);
    VictimFrameReused(u, p, victim, junk);
    FaultWs(u, p, victim, junk);
  }

  lemma ServedSpare(s: State, p: Page, junk: Content)
    requires Inv(s) && !Full(s.ws) && s.free != []
    requires p !in s.ptes && TableOf(p) in s.tables
    ensures Served(s, Fault(s, p, s.last, junk), p, s.last)
  {
    NotFullVacant(s);
    assert s.last < |s.ws|;
    hide FramesOk, Backed, WsMatches;
    FaultTransparent(s, p, s.last, junk);
    FaultWs(s, p, s.last, junk);
  }

  lemma FaultWs(s: State, p: Page, victim: nat, junk: Content)
    requires Inv(s) && p !in s.ptes && TableOf(p) in s.tables && victim < |s.ws|
    requires if Full(s.ws) then true else s.free != [] && victim == s.last
    ensures Fault(s, p, victim, junk).ws == s.ws[victim := WsEntry(p, false, NEW_STAMP)]
  {
    assert Full(s.ws) ==> Occupied(s.ws, victim);
    hide FramesOk, Backed, WsMatches, Compact, Full, Evict, Place;
    if Full(s.ws) {
      EvictLeaves(s, victim);
      EvictFrames(s, victim);
      EvictSlots(s, victim);
      PlaceSlots(Evict(s, victim), p, victim, junk);
    } else {
      PlaceFrames(s, p, s.last, junk);
      PlaceSlots(s, p, s.last, junk);
    }
  }

  lemma EvictSlots(s: State, v: nat)
    requires Evictable(s, v)
    ensures Evict(s, v).ws == s.ws[v := VACANT]
  {
  }

  lemma PlaceSlots(s: State, p: Page, v: nat, junk: Content)
    requires Placeable(s, p, v)
    ensures Place(s, p, v, junk).ws == s.ws[v := WsEntry(p, false, NEW_STAMP)]
  {
  }

  /** With a full working set: what the eviction hands to the placement. */
  lemma FullReady(s: State, u: State, p: Page, victim: nat, junk: Content)
    requires Inv(s) && SameButUsed(s, u) && Full(s.ws) && IsVictim(SlotBits(s), s.hand, victim)
    requires p !in s.ptes && TableOf(p) in s.tables
    ensures Inv(u) && Full(u.ws) && victim < |u.ws| && Evictable(u, victim)
    ensures var e := Evict(u, victim);
            && FramesOk(e, {}) && e.free != [] && |e.ws| == |s.ws| && p !in e.ptes && TableOf(p) in e.tables
            && e.pageFile.Keys == s.pageFile.Keys
            && Placeable(e, p, victim) && Served(s, Place(e, p, victim, junk), p, victim)
            && Place(e, p, victim, junk).hand < |s.ws|
  {
    ServedFull(s, u, p, victim, junk);
    assert Occupied(u.ws, victim);
    hide FramesOk, WsMatches, Compact, Full, Served, IsVictim;
    EvictLeaves(u, victim);
    EvictFrames(u, victim);
    EvictResidents(u, victim);
    EvictedFrames(Evict(u, victim), victim);
    PlaceFrames(Evict(u, victim), p, victim, junk);
  }

  lemma EvictedFrames(e: State, v: nat)
    requires Evicted(e, v)
    ensures FramesOk(e, {})
  {
  }

  /** With room in the working set: what the placement starts from. */
  lemma SpareReady(s: State, p: Page, junk: Content)
    requires Inv(s) && !Full(s.ws)
    requires p !in s.ptes && TableOf(p) in s.tables
    ensures FramesOk(s, {}) && s.last < |s.ws|
    ensures s.free != [] ==>
              && Placeable(s, p, s.last) && Served(s, Place(s, p, s.last, junk), p, s.last)
              && Place(s, p, s.last, junk).hand < |s.ws|
  {
    if s.free != [] {
      ServedSpare(s, p, junk);
      PlaceFrames(s, p, s.last, junk);
    }
  }

  /** The fault handler, with the modified clock selected, for a page that is not present but
      whose table is.  Only a working set with room can run out of frames. */
  method PageFaultHandler(m: Machine, faultVa: nat, stackBottom: Page, stackTop: Page, junk: Content)
    returns (end: FaultEnd, ghost victim: nat, ghost aged: State)
    requires m.Valid() && m.hand <= m.ws.Length
    requires faultVa / PAGE_SIZE !in m.ptes && TableOf(faultVa / PAGE_SIZE) in m.tables
    modifies m`pageFile, m`free, m`tables, m`ptes, m`last, m`hand, m.refs, m.ram, m.ws
    ensures end == Done ==> Handled(old(m.S()), aged, m.S(), faultVa / PAGE_SIZE, victim, junk)
    ensures end == Done ==> Effect(old(m.S()), aged, m.S(), faultVa / PAGE_SIZE, victim, junk)
    ensures end == Done ==> Served(old(m.S()), m.S(), faultVa / PAGE_SIZE, victim) && m.hand < m.ws.Length
    ensures end == NoMemory <==> !Full(old(m.ws[..])) && old(m.free) == []
    ensures end != NoMemory ==>
              var p := faultVa / PAGE_SIZE;
              (end == Done <==> p in old(m.pageFile)
                                || (stackBottom <= p < stackTop && |old(m.pageFile)| < m.fileRoom))
              && (end == InvalidAccess <==> p !in old(m.pageFile) && !(stackBottom <= p < stackTop))
  {
    hide Inv, FramesOk, Full, Served, Placeable, Evictable, Place, Evict, SlotBits, IsVictim, Aged, SameButUsed, Effect;
    ghost var s0 := m.S();
    var p := faultVa / PAGE_SIZE;
    var size := m.WsGetSize();
    var slot: nat;
    if size >= m.ws.Length {
      slot := ModifiedClock(m);
      aged := m.S();
      FullReady(s0, aged, p, slot, junk);
      PageReplacement(m, slot);
      assert |m.pageFile| == |m.pageFile.Keys| && |s0.pageFile| == |s0.pageFile.Keys|;
    } else {
      slot, aged := m.last, s0;
      SpareReady(s0, p, junk);
    }
    victim := slot;
    end := PagePlacement(m, p, stackBottom <= p < stackTop, slot, junk);
    if end == Done { HandledExact(s0, aged, m.S(), p, slot, junk); }
  }

  // ---------------------------------------------------------------- the hand of all environments

  /** The hand a fault leaves lies past the end of another environment's working set exactly when
      the victim's slot does and is not the last one of its own.  A fault of that environment
      on a full working set then searches for ever. */
  lemma HandOutgrows(s: State, u: State, t: State, p: Page, victim: nat, junk: Content, bits: seq<Bits>, k: nat)
    requires Inv(s) && Handled(s, u, t, p, victim, junk) && 0 < |bits|
    ensures |bits| < t.hand <==> |bits| <= victim && victim + 1 < |s.ws|
    ensures |bits| < t.hand ==> Rounds(bits, t.hand, k) == Outcome(-1, bits)
    ensures t.hand <= |bits| && 2 <= k ==> Rounds(bits, t.hand, k).victim != -1
  {
    HandledServed(s, u, t, p, victim, junk);
    hide Inv, Handled, Rounds;
    HandPastTheEnd(bits, t.hand, k);
  }

  /** Such a fault: three slots of which one is occupied, and a page that is in the page file. */
  lemma SharedHandHangs(bits: seq<Bits>, k: nat)
    requires |bits| == 1
    ensures exists s, t, p, junk ::
              && Inv(s) && s.hand <= |s.ws| && Handled(s, s, t, p, 1, junk) && t.hand == 2
              && Rounds(bits, t.hand, k) == Outcome(-1, bits)
  {
    hide Inv, Handled, Place, Rounds, SomeMemory;
    var s := SomeMemory();
    SomeMemoryReady();
    HandOutgrows(s, s, Place(s, 1, 1, []), 1, 1, [], bits, k);
  }

  /** Three frames and three slots; page 0 is resident and page 1 in the page file. */
  function SomeMemory(): State {
    var file: map<Page, Option<Content>> := map[0 := None, 1 := None];
    State([2], [1, 1, 0], [[], [], []], map[0 := 0], map[0 := Pte(1, true, false)], file,
          [WsEntry(0, false, NEW_STAMP), VACANT, VACANT], 1, 1)
  }

  lemma SomeMemoryReady()
    ensures var s := SomeMemory();
            && Inv(s) && |s.ws| == 3 && s.hand == 1
            && Placeable(s, 1, 1) && Handled(s, s, Place(s, 1, 1, []), 1, 1, [])
            && Place(s, 1, 1, []).hand == 2
  {
    hide Inv;
    SomeMemoryInv();
    assert SomeMemory().ws[1].empty;
    PlaceHand(SomeMemory(), 1, 1, []);
  }

  lemma SomeMemoryInv()
    ensures Inv(SomeMemory())
  {
    SomeMemoryFrames();
    SomeMemorySlots();
    hide FramesOk, Backed, WsMatches, Compact;
  }

  lemma SomeMemoryFrames()
    ensures FramesOk(SomeMemory(), {}) && Backed(SomeMemory())
  {
  }

  lemma SomeMemorySlots()
    ensures WsMatches(SomeMemory()) && Compact(SomeMemory().ws, SomeMemory().last)
  {
    var ws := SomeMemory().ws;
    assert Occupied(ws, 0) && !Occupied(ws, 1) && !Occupied(ws, 2);
  }
}
