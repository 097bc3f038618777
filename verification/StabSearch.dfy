/** The symbol-table search of kern/kdebug.c.

    Entries of many kinds are interleaved; the entries of one kind are in increasing
    order of value.  The search brackets an address between two entries of one kind,
    and raises its own target by one word when it meets the address exactly. */
module StabSearch {

  import opened Common

  datatype Stab = Stab(kind: int, value: nat)

  /** The two bounds the caller passes by reference. */
  datatype Region = Region(left: int, right: int)

  // ---------------------------------------------------------------- meaning

  ghost predicate Matches(stabs: seq<Stab>, kind: int, i: int) {
    0 <= i < |stabs| && stabs[i].kind == kind
  }

  ghost predicate NoMatch(stabs: seq<Stab>, kind: int, lo: int, hi: int) {
    forall i | lo <= i <= hi :: !Matches(stabs, kind, i)
  }

  /** The entries of the kind are in increasing order of value. */
  ghost predicate Ordered(stabs: seq<Stab>, kind: int, lo: int, hi: int) {
    forall i, j | lo <= i <= j <= hi && Matches(stabs, kind, i) && Matches(stabs, kind, j) ::
      stabs[i].value <= stabs[j].value
  }

  ghost predicate Hit(stabs: seq<Stab>, kind: int, lo: int, hi: int, addr: nat) {
    exists i | lo <= i <= hi :: Matches(stabs, kind, i) && stabs[i].value == addr
  }

  /** The next word exists and no entry of the kind lies above addr within it. */
  ghost predicate Clear(stabs: seq<Stab>, kind: int, lo: int, hi: int, addr: nat) {
    && addr + 4 < WORD
    && forall i | lo <= i <= hi && Matches(stabs, kind, i) :: !(addr < stabs[i].value <= addr + 4)
  }

  ghost predicate ClearAbove(stabs: seq<Stab>, kind: int, lo: int, hi: int, addr: nat) {
    Hit(stabs, kind, lo, hi, addr) ==> Clear(stabs, kind, lo, hi, addr)
  }

  /** m is the last entry of the kind at or below the address. */
  ghost predicate LastAtMost(stabs: seq<Stab>, kind: int, lo: int, hi: int, addr: nat, m: int) {
    && lo <= m <= hi && Matches(stabs, kind, m) && stabs[m].value <= addr
    && forall i | m < i <= hi && Matches(stabs, kind, i) :: addr < stabs[i].value
  }

  /** m is the first entry of the kind above the address. */
  ghost predicate FirstAbove(stabs: seq<Stab>, kind: int, lo: int, hi: int, addr: nat, m: int) {
    && lo <= m <= hi && Matches(stabs, kind, m) && addr < stabs[m].value
    && forall i | lo <= i < m && Matches(stabs, kind, i) :: stabs[i].value <= addr
  }

  ghost predicate NoneAbove(stabs: seq<Stab>, kind: int, lo: int, hi: int, addr: nat) {
    forall i | lo <= i <= hi && Matches(stabs, kind, i) :: stabs[i].value <= addr
  }

  ghost predicate SomeAtMost(stabs: seq<Stab>, kind: int, lo: int, hi: int, addr: nat) {
    exists i | lo <= i <= hi :: Matches(stabs, kind, i) && stabs[i].value <= addr
  }

  /** What the bounds say when the search returns. */
  ghost predicate Located(stabs: seq<Stab>, kind: int, lo: int, hi: int, addr: nat, g: Region) {
    if NoMatch(stabs, kind, lo, hi) then
      g.left == lo && g.right == lo - 1
    else
      && (if NoneAbove(stabs, kind, lo, hi, addr) then g.right == hi
          else FirstAbove(stabs, kind, lo, hi, addr, g.right + 1))
      && (if SomeAtMost(stabs, kind, lo, hi, addr) then LastAtMost(stabs, kind, lo, hi, addr, g.left)
          else g.left == if lo <= g.right then lo else g.right)
  }

  // ---------------------------------------------------------------- the search as a function

  /** The nearest entry of the kind at or before m and above floor; else floor itself,
      or m when m starts below it. */
  function Nearest(stabs: seq<Stab>, kind: int, floor: int, m: int): (r: int)
    requires -1 <= floor && m < |stabs|
    ensures if floor <= m then floor <= r <= m else r == m
    decreases m - floor
  {
    if floor < m && stabs[m].kind != kind then Nearest(stabs, kind, floor, m - 1) else m
  }

  lemma {:induction false} NearestIsNearest(stabs: seq<Stab>, kind: int, floor: int, m: int)
    requires -1 <= floor && m < |stabs|
    ensures var r := Nearest(stabs, kind, floor, m);
            NoMatch(stabs, kind, r + 1, m) && (floor < r ==> Matches(stabs, kind, r))
    decreases m - floor
  {
    if floor < m && stabs[m].kind != kind { NearestIsNearest(stabs, kind, floor, m - 1); }
  }

  /** The state of the outer loop. */
  datatype Probe = Probe(l: int, r: int, left: int, right: int, any: bool, addr: nat) {
    ghost predicate InBounds(stabs: seq<Stab>) {
      0 <= l && r < |stabs| && addr < WORD
    }
  }

  /** One word up, in 32-bit arithmetic. */
  function NextWord(a: nat): (r: nat)
    requires a < WORD
    ensures r < WORD && r != a
  {
    if a + 4 < WORD then a + 4 else a + 4 - WORD
  }

  function Middle(l: int, r: int): (m: int)
    requires 0 <= l <= r
    ensures l <= m <= r
  {
    (l + r) / 2
  }

  /** One turn of the loop, given the entry m found at or before the middle. */
  function Turn(stabs: seq<Stab>, p: Probe, mid: int, m: int): Probe
    requires p.InBounds(stabs) && p.l <= mid <= p.r && p.l - 1 <= m <= mid
  {
    if m < p.l then p.(l := mid + 1)
    else if stabs[m].value < p.addr then p.(any := true, left := m, l := mid + 1)
    else if p.addr < stabs[m].value then p.(any := true, right := m - 1, r := m - 1)
    else p.(any := true, left := m, l := m, addr := NextWord(p.addr))
  }

  function Step(stabs: seq<Stab>, kind: int, p: Probe): (q: Probe)
    requires p.InBounds(stabs) && p.l <= p.r
    ensures q.InBounds(stabs)
    ensures q.r - q.l < p.r - p.l
            || (q.l == p.l && q.r == p.r && stabs[p.l].value == p.addr != q.addr)
  {
    var mid := Middle(p.l, p.r);
    Turn(stabs, p, mid, Nearest(stabs, kind, p.l - 1, mid))
  }

  function Run(stabs: seq<Stab>, kind: int, p: Probe): Probe
    requires p.InBounds(stabs)
    decreases p.r - p.l, if p.l < |stabs| && stabs[p.l].value == p.addr then 1 else 0
  {
    if p.l <= p.r then Run(stabs, kind, Step(stabs, kind, p)) else p
  }

  function Start(lo: int, hi: int, addr: nat): Probe { Probe(lo, hi, lo, hi, false, addr) }

  function Close(stabs: seq<Stab>, kind: int, p: Probe): Region
    requires p.any ==> -1 <= p.left && p.right < |stabs|
  {
    if !p.any then Region(p.left, p.left - 1) else Region(Nearest(stabs, kind, p.left, p.right), p.right)
  }

  lemma {:induction false} RunBounds(stabs: seq<Stab>, kind: int, p: Probe)
    requires p.InBounds(stabs) && 0 <= p.left && p.right < |stabs|
    ensures var q := Run(stabs, kind, p); 0 <= q.left && q.right < |stabs|
    decreases p.r - p.l, if p.l < |stabs| && stabs[p.l].value == p.addr then 1 else 0
  {
    if p.l <= p.r { RunBounds(stabs, kind, Step(stabs, kind, p)); }
  }

  function Search(stabs: seq<Stab>, kind: int, lo: int, hi: int, addr: nat): Region
    requires 0 <= lo && hi < |stabs| && addr < WORD
  {
    var p := Run(stabs, kind, Start(lo, hi, addr));
    RunBounds(stabs, kind, Start(lo, hi, addr));
    Close(stabs, kind, p)
  }

  // ---------------------------------------------------------------- the search as written

  /** The halving loop.  Terminates on every table and every target, ordered or not. */
  method Narrow(stabs: seq<Stab>, start: Probe, kind: int) returns (end: Probe)
    requires start.InBounds(stabs)
    ensures end == Run(stabs, kind, start)
  {
    hide Nearest, Middle, NextWord;
    var Probe(l, r, left, right, anyMatches, addr) := start;
    while l <= r
      invariant Probe(l, r, left, right, anyMatches, addr).InBounds(stabs)
      invariant Run(stabs, kind, Probe(l, r, left, right, anyMatches, addr)) == Run(stabs, kind, start)
      decreases r - l, if l < |stabs| && stabs[l].value == addr then 1 else 0
    {
      ghost var before := Probe(l, r, left, right, anyMatches, addr);
      var trueM := Middle(l, r);
      var m := ScanBack(stabs, kind, l - 1, trueM);
      if m < l {
        l := trueM + 1;
      } else {
        anyMatches := true;
        if stabs[m].value < addr {
          left := m;
          l := trueM + 1;
        } else if addr < stabs[m].value {
          right := m - 1;
          r := m - 1;
        } else {
          left := m;
          l := m;
          addr := NextWord(addr);
        }
      }
      assert Probe(l, r, left, right, anyMatches, addr) == Turn(stabs, before, trueM, m);
    }
    end := Probe(l, r, left, right, anyMatches, addr);
  }

  method StabBinsearch(stabs: seq<Stab>, regionLeft: int, regionRight: int, kind: int, target: nat)
    returns (left: int, right: int)
    requires 0 <= regionLeft && regionRight < |stabs| && target < WORD
    ensures Region(left, right) == Search(stabs, kind, regionLeft, regionRight, target)
  {
    RunBounds(stabs, kind, Start(regionLeft, regionRight, target));
    var p := Narrow(stabs, Start(regionLeft, regionRight, target), kind);
    if !p.any {
      left, right := p.left, p.left - 1;
    } else {
      left := ScanBack(stabs, kind, p.left, p.right);
      right := p.right;
    }
  }

  /** The backward scan that both of the inner loops perform. */
  method ScanBack(stabs: seq<Stab>, kind: int, floor: int, from: int) returns (m: int)
    requires -1 <= floor && from < |stabs|
    ensures m == Nearest(stabs, kind, floor, from)
  {
    m := from;
    while floor < m && stabs[m].kind != kind
      invariant m <= from
      invariant Nearest(stabs, kind, floor, m) == Nearest(stabs, kind, floor, from)
    {
      m := m - 1;
    }
  }

  // ---------------------------------------------------------------- correctness

  /** What every turn of the loop keeps, relative to the region and target of the call. */
  ghost predicate Narrowed(stabs: seq<Stab>, kind: int, lo: int, hi: int, addr: nat, p: Probe) {
    && p.InBounds(stabs)
    && lo <= p.l <= p.r + 1 && p.right == p.r <= hi
    && (p.addr == addr || (p.addr == addr + 4 && Clear(stabs, kind, lo, hi, addr)))
    && (!p.any ==> NoMatch(stabs, kind, lo, p.l - 1) && p.r == hi && p.left == lo)
    && (p.any ==> !NoMatch(stabs, kind, lo, hi))
    && (p.r < hi ==> Matches(stabs, kind, p.r + 1) && addr < stabs[p.r + 1].value)
    && lo <= p.left <= p.l
    && ((NoMatch(stabs, kind, lo, p.l - 1) && p.left == lo)
        || (p.left <= p.r && Matches(stabs, kind, p.left) && stabs[p.left].value <= addr))
    && NoMatch(stabs, kind, p.left + 1, p.l - 1)
  }

  /** A turn that finds no entry of the kind in [l, mid]. */
  lemma SkipNarrows(stabs: seq<Stab>, kind: int, lo: int, hi: int, addr: nat, p: Probe, mid: int)
    requires 0 <= lo && hi < |stabs| && Narrowed(stabs, kind, lo, hi, addr, p)
    requires p.l <= mid <= p.r && NoMatch(stabs, kind, p.l, mid)
    ensures Narrowed(stabs, kind, lo, hi, addr, p.(l := mid + 1))
  {
  }

  /** A turn that finds an entry at or below the target moves the left bound onto it. */
  lemma RaiseNarrows(stabs: seq<Stab>, kind: int, lo: int, hi: int, addr: nat, p: Probe, m: int, q: Probe)
    requires 0 <= lo && hi < |stabs| && Narrowed(stabs, kind, lo, hi, addr, p)
    requires p.l <= m <= p.r && Matches(stabs, kind, m) && stabs[m].value <= addr
    requires m <= q.l <= p.r + 1 && NoMatch(stabs, kind, m + 1, q.l - 1)
    requires q == p.(any := true, left := m, l := q.l, addr := q.addr) && q.addr < WORD
    requires q.addr == addr || (q.addr == addr + 4 && Clear(stabs, kind, lo, hi, addr))
    ensures Narrowed(stabs, kind, lo, hi, addr, q)
  {
  }

  /** A turn that finds an entry above the target lowers the right bound past it. */
  lemma LowerNarrows(stabs: seq<Stab>, kind: int, lo: int, hi: int, addr: nat, p: Probe, m: int)
    requires 0 <= lo && hi < |stabs| && Narrowed(stabs, kind, lo, hi, addr, p)
    requires p.l <= m <= p.r && Matches(stabs, kind, m) && addr < stabs[m].value
    ensures Narrowed(stabs, kind, lo, hi, addr, p.(any := true, right := m - 1, r := m - 1))
  {
    if p.left == m {
      assert NoMatch(stabs, kind, lo, p.l - 1);
    }
  }

  /** Comparing with the raised target decides the same as comparing with the original. */
  lemma TargetSplits(stabs: seq<Stab>, kind: int, lo: int, hi: int, addr: nat, t: nat, m: int)
    requires lo <= m <= hi && Matches(stabs, kind, m)
    requires ClearAbove(stabs, kind, lo, hi, addr)
    requires t == addr || (t == addr + 4 && Clear(stabs, kind, lo, hi, addr))
    ensures stabs[m].value < t ==> stabs[m].value <= addr
    ensures t < stabs[m].value ==> addr < stabs[m].value
    ensures stabs[m].value == t ==> t == addr && Clear(stabs, kind, lo, hi, addr)
  {
    if stabs[m].value == t == addr { assert Hit(stabs, kind, lo, hi, addr); }
  }

  lemma TurnNarrows(stabs: seq<Stab>, kind: int, lo: int, hi: int, addr: nat, p: Probe, mid: int, m: int)
    requires 0 <= lo && hi < |stabs| && addr < WORD
    requires ClearAbove(stabs, kind, lo, hi, addr)
    requires Narrowed(stabs, kind, lo, hi, addr, p) && p.l <= mid <= p.r
    requires p.l - 1 <= m <= mid && NoMatch(stabs, kind, m + 1, mid)
    requires p.l <= m ==> Matches(stabs, kind, m)
    ensures Narrowed(stabs, kind, lo, hi, addr, Turn(stabs, p, mid, m))
  {
    if m < p.l {
      SkipNarrows(stabs, kind, lo, hi, addr, p, mid);
    } else {
      TargetSplits(stabs, kind, lo, hi, addr, p.addr, m);
      if p.addr < stabs[m].value {
        LowerNarrows(stabs, kind, lo, hi, addr, p, m);
      } else {
        RaiseNarrows(stabs, kind, lo, hi, addr, p, m, Turn(stabs, p, mid, m));
      }
    }
  }

  lemma StepNarrows(stabs: seq<Stab>, kind: int, lo: int, hi: int, addr: nat, p: Probe)
    requires 0 <= lo && hi < |stabs| && addr < WORD
    requires ClearAbove(stabs, kind, lo, hi, addr)
    requires Narrowed(stabs, kind, lo, hi, addr, p) && p.l <= p.r
    ensures Narrowed(stabs, kind, lo, hi, addr, Step(stabs, kind, p))
  {
    var mid := Middle(p.l, p.r);
    NearestIsNearest(stabs, kind, p.l - 1, mid);
    TurnNarrows(stabs, kind, lo, hi, addr, p, mid, Nearest(stabs, kind, p.l - 1, mid));
  }

  lemma {:induction false} RunNarrows(stabs: seq<Stab>, kind: int, lo: int, hi: int, addr: nat, p: Probe)
    requires 0 <= lo && hi < |stabs| && addr < WORD
    requires ClearAbove(stabs, kind, lo, hi, addr) && Narrowed(stabs, kind, lo, hi, addr, p)
    ensures var q := Run(stabs, kind, p); Narrowed(stabs, kind, lo, hi, addr, q) && q.r < q.l
    decreases p.r - p.l, if p.l < |stabs| && stabs[p.l].value == p.addr then 1 else 0
  {
    if p.l <= p.r {
      StepNarrows(stabs, kind, lo, hi, addr, p);
      RunNarrows(stabs, kind, lo, hi, addr, Step(stabs, kind, p));
    }
  }

  /** Once the bounds have met, the closing scan yields the bracket. */
  lemma CloseLocates(stabs: seq<Stab>, kind: int, lo: int, hi: int, addr: nat, p: Probe)
    requires 0 <= lo && hi < |stabs| && Ordered(stabs, kind, lo, hi)
    requires Narrowed(stabs, kind, lo, hi, addr, p) && p.l == p.r + 1
    ensures Located(stabs, kind, lo, hi, addr, Close(stabs, kind, p))
  {
    if p.any {
      NearestIsNearest(stabs, kind, p.left, p.right);
    }
  }

  /** The left bound is the last entry of the kind at or below the target and the right
      bound stops just before the first one above it. */
  lemma SearchLocates(stabs: seq<Stab>, kind: int, lo: int, hi: int, addr: nat)
    requires 0 <= lo <= hi + 1 && hi < |stabs| && addr < WORD
    requires Ordered(stabs, kind, lo, hi) && ClearAbove(stabs, kind, lo, hi, addr)
    ensures Located(stabs, kind, lo, hi, addr, Search(stabs, kind, lo, hi, addr))
  {
    RunBounds(stabs, kind, Start(lo, hi, addr));
    RunNarrows(stabs, kind, lo, hi, addr, Start(lo, hi, addr));
    CloseLocates(stabs, kind, lo, hi, addr, Run(stabs, kind, Start(lo, hi, addr)));
  }

  /** Whether the search has met an entry of the kind, on any table. */
  ghost predicate Tells(stabs: seq<Stab>, kind: int, lo: int, hi: int, p: Probe) {
    && p.InBounds(stabs) && lo <= p.l && p.r <= hi && 0 <= p.left && p.right < |stabs|
    && (if p.any then !NoMatch(stabs, kind, lo, hi)
        else NoMatch(stabs, kind, lo, p.l - 1) && p.r == hi && p.left == lo)
  }

  lemma {:induction false} RunTells(stabs: seq<Stab>, kind: int, lo: int, hi: int, p: Probe)
    requires 0 <= lo && hi < |stabs| && Tells(stabs, kind, lo, hi, p)
    ensures var q := Run(stabs, kind, p); Tells(stabs, kind, lo, hi, q) && q.r < q.l
    decreases p.r - p.l, if p.l < |stabs| && stabs[p.l].value == p.addr then 1 else 0
  {
    if p.r < p.l {
    } else {
      NearestIsNearest(stabs, kind, p.l - 1, Middle(p.l, p.r));
      RunTells(stabs, kind, lo, hi, Step(stabs, kind, p));
    }
  }

  /** On every table, ordered or not, the bounds cross exactly when the region has no entry of
      the kind, and then no entry contains the address. */
  lemma NotContainedSignal(stabs: seq<Stab>, kind: int, lo: int, hi: int, addr: nat)
    requires 0 <= lo && hi < |stabs| && addr < WORD
    ensures var g := Search(stabs, kind, lo, hi, addr);
            && (g.right < g.left <==> NoMatch(stabs, kind, lo, hi))
            && (g.right < g.left ==> !SomeAtMost(stabs, kind, lo, hi, addr))
  {
    RunBounds(stabs, kind, Start(lo, hi, addr));
    RunTells(stabs, kind, lo, hi, Start(lo, hi, addr));
  }

  // ---------------------------------------------------------------- exact hits

  /** The entry that a turn looks at. */
  function Probed(stabs: seq<Stab>, kind: int, p: Probe): (m: int)
    requires p.InBounds(stabs) && p.l <= p.r
    ensures p.l - 1 <= m <= p.r
  {
    Nearest(stabs, kind, p.l - 1, Middle(p.l, p.r))
  }

  /** The state in which the search first meets its target exactly, or its last state. */
  function UntilHit(stabs: seq<Stab>, kind: int, p: Probe): (q: Probe)
    requires p.InBounds(stabs)
    ensures q.InBounds(stabs) && q.addr == p.addr
    decreases p.r - p.l
  {
    if p.r < p.l || Step(stabs, kind, p).addr != p.addr then p else UntilHit(stabs, kind, Step(stabs, kind, p))
  }

  /** The entry on which raising the target wraps it round to 0, or -1. */
  function WrapsAt(stabs: seq<Stab>, kind: int, p: Probe): int
    requires p.InBounds(stabs)
    decreases p.r - p.l, if p.l < |stabs| && stabs[p.l].value == p.addr then 1 else 0
  {
    if p.r < p.l then -1
    else
      var q := Step(stabs, kind, p);
      if q.addr < p.addr then q.l else WrapsAt(stabs, kind, q)
  }

  /** What makes the search right: there is no exact hit, or the part of the region that is
      still open at the first one is clear, or the target wraps round on the very entry that
      follows the one looked for. */
  ghost predicate Unspoilt(stabs: seq<Stab>, kind: int, lo: int, hi: int, addr: nat)
    requires 0 <= lo && hi < |stabs| && addr < WORD
  {
    var p := UntilHit(stabs, kind, Start(lo, hi, addr));
    || !Hit(stabs, kind, lo, hi, addr)
    || Clear(stabs, kind, p.l, p.r, addr)
    || WrapsBack(stabs, kind, lo, hi, addr, WrapsAt(stabs, kind, p))
  }

  ghost predicate WrapsBack(stabs: seq<Stab>, kind: int, lo: int, hi: int, addr: nat, w: int) {
    FirstAbove(stabs, kind, lo, hi, addr, w) && Matches(stabs, kind, w - 1)
  }

  /** A turn that leaves the target alone keeps what is known, and any other is a hit. */
  lemma QuietTurn(stabs: seq<Stab>, kind: int, lo: int, hi: int, addr: nat, p: Probe)
    requires 0 <= lo && hi < |stabs| && addr < WORD
    requires Narrowed(stabs, kind, lo, hi, addr, p) && p.addr == addr && p.l <= p.r
    ensures var q, m := Step(stabs, kind, p), Probed(stabs, kind, p);
            if q.addr == addr then Narrowed(stabs, kind, lo, hi, addr, q)
            else
              && p.l <= m && Matches(stabs, kind, m) && stabs[m].value == addr
              && q == p.(any := true, left := m, l := m, addr := NextWord(addr))
  {
    var mid, m := Middle(p.l, p.r), Probed(stabs, kind, p);
    NearestIsNearest(stabs, kind, p.l - 1, mid);
    hide Nearest, Middle, NextWord;
    if m < p.l {
      SkipNarrows(stabs, kind, lo, hi, addr, p, mid);
    } else if stabs[m].value < addr {
      RaiseNarrows(stabs, kind, lo, hi, addr, p, m, Turn(stabs, p, mid, m));
    } else if addr < stabs[m].value {
      LowerNarrows(stabs, kind, lo, hi, addr, p, m);
    }
  }

  /** Up to the first exact hit nothing depends on the entries near the target. */
  lemma {:induction false} UntilHitNarrows(stabs: seq<Stab>, kind: int, lo: int, hi: int, addr: nat, p: Probe)
    requires 0 <= lo && hi < |stabs| && addr < WORD
    requires Narrowed(stabs, kind, lo, hi, addr, p) && p.addr == addr
    ensures var q := UntilHit(stabs, kind, p);
            && Narrowed(stabs, kind, lo, hi, addr, q)
            && Run(stabs, kind, p) == Run(stabs, kind, q)
            && (q.l <= q.r ==>
                  var m := Probed(stabs, kind, q);
                  && q.l <= m && Matches(stabs, kind, m) && stabs[m].value == addr
                  && Step(stabs, kind, q) == q.(any := true, left := m, l := m, addr := NextWord(addr)))
    decreases p.r - p.l
  {
    hide Narrowed, Step, Probed, NextWord, Matches;
    NarrowedShape(stabs, kind, lo, hi, addr, p);
    if p.l <= p.r {
      QuietTurn(stabs, kind, lo, hi, addr, p);
      if Step(stabs, kind, p).addr == addr {
        UntilHitNarrows(stabs, kind, lo, hi, addr, Step(stabs, kind, p));
      }
    }
  }

  lemma NarrowedShape(stabs: seq<Stab>, kind: int, lo: int, hi: int, addr: nat, p: Probe)
    requires Narrowed(stabs, kind, lo, hi, addr, p)
    ensures p.InBounds(stabs) && lo <= p.l <= p.r + 1 && p.right == p.r <= hi
  {
  }

  /** From a hit in an open part that is clear the search comes out right. */
  lemma ClearHitLocates(stabs: seq<Stab>, kind: int, lo: int, hi: int, addr: nat, p: Probe, m: int)
    requires 0 <= lo && hi < |stabs| && addr < WORD && Ordered(stabs, kind, lo, hi)
    requires Narrowed(stabs, kind, lo, hi, addr, p) && Clear(stabs, kind, p.l, p.r, addr)
    requires p.l <= m <= p.r && Matches(stabs, kind, m) && stabs[m].value == addr
    ensures var q := Run(stabs, kind, p.(any := true, left := m, l := m, addr := addr + 4));
            0 <= q.left && q.right < |stabs| && Located(stabs, kind, lo, hi, addr, Close(stabs, kind, q))
  {
    var n := p.(any := true, left := m, l := m, addr := addr + 4);
    assert Narrowed(stabs, kind, p.l, p.r, addr, n);
    RunBounds(stabs, kind, n);
    RunNarrows(stabs, kind, p.l, p.r, addr, n);
    CloseLocates(stabs, kind, p.l, p.r, addr, Run(stabs, kind, n));
    LocatedWithin(stabs, kind, lo, hi, addr, p, m, Close(stabs, kind, Run(stabs, kind, n)));
  }

  /** A bracket of the open part that holds a hit is a bracket of the region. */
  lemma LocatedWithin(stabs: seq<Stab>, kind: int, lo: int, hi: int, addr: nat, p: Probe, m: int, g: Region)
    requires 0 <= lo && hi < |stabs| && Ordered(stabs, kind, lo, hi)
    requires Narrowed(stabs, kind, lo, hi, addr, p)
    requires p.l <= m <= p.r && Matches(stabs, kind, m) && stabs[m].value == addr
    requires Located(stabs, kind, p.l, p.r, addr, g)
    ensures Located(stabs, kind, lo, hi, addr, g)
  {
    assert SomeAtMost(stabs, kind, p.l, p.r, addr) && SomeAtMost(stabs, kind, lo, hi, addr);
    assert forall i | lo <= i < p.l && Matches(stabs, kind, i) :: stabs[i].value <= addr;
    assert forall i | p.r < i <= hi && Matches(stabs, kind, i) :: addr < stabs[i].value;
  }

  /** Once every open entry lies above the target, the bounds close in below the lowest. */
  lemma {:induction false} Collapses(stabs: seq<Stab>, kind: int, p: Probe)
    requires p.InBounds(stabs) && p.l - 1 <= p.r && Matches(stabs, kind, p.l)
    requires p.any && p.left == p.l && p.right == p.r
    requires forall i | p.l <= i <= p.r && Matches(stabs, kind, i) :: p.addr < stabs[i].value
    ensures Run(stabs, kind, p) == p.(right := p.l - 1, r := p.l - 1)
    decreases p.r - p.l
  {
    if p.l <= p.r {
      NearestIsNearest(stabs, kind, p.l - 1, Middle(p.l, p.r));
      Collapses(stabs, kind, Step(stabs, kind, p));
    }
  }

  /** A hit on which the target wraps leaves both bounds just before that entry. */
  lemma WrapLocates(stabs: seq<Stab>, kind: int, p: Probe, m: int)
    requires p.InBounds(stabs) && p.r == p.right && p.l <= m <= p.r && Matches(stabs, kind, m)
    requires stabs[m].value == p.addr && WORD <= p.addr + 4
    requires Ordered(stabs, kind, p.l, p.r)
    ensures var q := Run(stabs, kind, p.(any := true, left := m, l := m, addr := NextWord(p.addr)));
            0 <= q.left && q.right < |stabs| && Close(stabs, kind, q) == Region(m - 1, m - 1)
  {
    Collapses(stabs, kind, p.(any := true, left := m, l := m, addr := NextWord(p.addr)));
  }

  /** The open part reaches the entry f, which the target has already caught up with. */
  ghost predicate Overtaken(stabs: seq<Stab>, kind: int, p: Probe, f: int) {
    && p.InBounds(stabs) && 0 <= p.left && p.right == p.r
    && p.any && f <= p.r && Matches(stabs, kind, f) && stabs[f].value <= p.addr
  }

  /** Unless the target wraps, the right bound never comes down past such an entry. */
  lemma {:induction false} OvertakenStays(stabs: seq<Stab>, kind: int, lo: int, hi: int, p: Probe, f: int)
    requires 0 <= lo && hi < |stabs| && Ordered(stabs, kind, lo, hi)
    requires Overtaken(stabs, kind, p, f) && lo <= p.l && lo <= f && p.r <= hi
    ensures var q, w := Run(stabs, kind, p), WrapsAt(stabs, kind, p);
            && 0 <= q.left && q.right < |stabs|
            && (w == -1 ==> f <= Close(stabs, kind, q).left && f <= Close(stabs, kind, q).right)
            && (w != -1 ==>
                  && Close(stabs, kind, q) == Region(w - 1, w - 1)
                  && Matches(stabs, kind, w) && WORD <= stabs[w].value + 4)
    decreases p.r - p.l, if p.l < |stabs| && stabs[p.l].value == p.addr then 1 else 0
  {
    if p.l <= p.r {
      var m, q := Probed(stabs, kind, p), Step(stabs, kind, p);
      NearestIsNearest(stabs, kind, p.l - 1, Middle(p.l, p.r));
      if q.addr < p.addr {
        WrapLocates(stabs, kind, p, m);
      } else {
        OvertakenStays(stabs, kind, lo, hi, q, f);
      }
    } else {
      NearestIsNearest(stabs, kind, p.left, p.right);
    }
  }

  /** The answer that a run from n gives, after an exact hit in state p; w is where the target
      wraps. */
  ghost predicate Answers(stabs: seq<Stab>, kind: int, lo: int, hi: int, addr: nat, p: Probe, n: Probe, w: int) {
    && n.InBounds(stabs)
    && var q := Run(stabs, kind, n);
    && 0 <= q.left && q.right < |stabs|
    && (Located(stabs, kind, lo, hi, addr, Close(stabs, kind, q))
        <==> Clear(stabs, kind, p.l, p.r, addr) || WrapsBack(stabs, kind, lo, hi, addr, w))
    && (LastAtMost(stabs, kind, lo, hi, addr, Close(stabs, kind, q).left)
        <==> Clear(stabs, kind, p.l, p.r, addr) || WrapsBack(stabs, kind, lo, hi, addr, w))
    && (WrapsBack(stabs, kind, lo, hi, addr, w) && !Clear(stabs, kind, p.l, p.r, addr) ==> WORD <= addr + 8)
  }

  /** A hit below an entry less than a word above the address spoils the answer, unless the
      target wraps round on the first such entry. */
  lemma StrayHit(stabs: seq<Stab>, kind: int, lo: int, hi: int, addr: nat, p: Probe, m: int)
    requires 0 <= lo && hi < |stabs| && addr + 4 < WORD && Ordered(stabs, kind, lo, hi)
    requires Narrowed(stabs, kind, lo, hi, addr, p) && !Clear(stabs, kind, p.l, p.r, addr)
    requires p.l <= m <= p.r && Matches(stabs, kind, m) && stabs[m].value == addr
    ensures var n := p.(any := true, left := m, l := m, addr := addr + 4);
            n.InBounds(stabs) && Answers(stabs, kind, lo, hi, addr, p, n, WrapsAt(stabs, kind, n))
  {
    var n := p.(any := true, left := m, l := m, addr := addr + 4);
    var i :| p.l <= i <= p.r && Matches(stabs, kind, i) && addr < stabs[i].value <= addr + 4;
    var f := FirstOf(stabs, kind, lo, addr, i);
    assert FirstAbove(stabs, kind, lo, hi, addr, f) && m < f <= i;
    OvertakenStays(stabs, kind, lo, hi, n, f);
    hide Run, WrapsAt, Close, Narrowed, Clear, LastAtMost;
    var q, w := Run(stabs, kind, n), WrapsAt(stabs, kind, n);
    StrayAnswer(stabs, kind, lo, hi, addr, m, f, w, Close(stabs, kind, q));
  }

  /** Which answers are right when m is an exact hit and f the first entry above it. */
  lemma StrayAnswer(stabs: seq<Stab>, kind: int, lo: int, hi: int, addr: nat, m: int, f: int, w: int, g: Region)
    requires Ordered(stabs, kind, lo, hi)
    requires FirstAbove(stabs, kind, lo, hi, addr, f) && stabs[f].value <= addr + 4
    requires lo <= m < f && Matches(stabs, kind, m) && stabs[m].value == addr
    requires if w == -1 then f <= g.left && f <= g.right
             else g == Region(w - 1, w - 1) && Matches(stabs, kind, w) && WORD <= stabs[w].value + 4
    ensures Located(stabs, kind, lo, hi, addr, g) <==> WrapsBack(stabs, kind, lo, hi, addr, w)
    ensures LastAtMost(stabs, kind, lo, hi, addr, g.left) <==> WrapsBack(stabs, kind, lo, hi, addr, w)
    ensures WrapsBack(stabs, kind, lo, hi, addr, w) ==> w == f && WORD <= addr + 8
  {
    assert !NoMatch(stabs, kind, lo, hi) && !NoneAbove(stabs, kind, lo, hi, addr);
    assert SomeAtMost(stabs, kind, lo, hi, addr);
  }

  /** The first entry of the kind above the address, given one. */
  function FirstOf(stabs: seq<Stab>, kind: int, lo: int, addr: nat, i: int): (f: int)
    requires 0 <= lo <= i && Matches(stabs, kind, i) && addr < stabs[i].value
    ensures FirstAbove(stabs, kind, lo, i, addr, f)
    decreases i - lo
  {
    if stabs[lo].kind == kind && addr < stabs[lo].value then lo else FirstOf(stabs, kind, lo + 1, addr, i)
  }

  lemma WrapHit(stabs: seq<Stab>, kind: int, lo: int, hi: int, addr: nat, p: Probe, m: int)
    requires 0 <= lo && hi < |stabs| && addr < WORD <= addr + 4 && Ordered(stabs, kind, lo, hi)
    requires Narrowed(stabs, kind, lo, hi, addr, p) && p.l <= m <= p.r && Matches(stabs, kind, m)
    requires p.addr == addr == stabs[m].value
    ensures Answers(stabs, kind, lo, hi, addr, p, p.(any := true, left := m, l := m, addr := NextWord(addr)), m)
  {
    NarrowedShape(stabs, kind, lo, hi, addr, p);
    hide Narrowed;
    WrapLocates(stabs, kind, p, m);
    MissesHit(stabs, kind, lo, hi, addr, m, Region(m - 1, m - 1));
    hide Ordered, Located, WrapsBack, Run, Close, Matches;
  }

  lemma ClearHit(stabs: seq<Stab>, kind: int, lo: int, hi: int, addr: nat, p: Probe, m: int, w: int)
    requires 0 <= lo && hi < |stabs| && addr < WORD && Ordered(stabs, kind, lo, hi)
    requires Narrowed(stabs, kind, lo, hi, addr, p) && p.l <= m <= p.r && Matches(stabs, kind, m)
    requires p.addr == addr == stabs[m].value && Clear(stabs, kind, p.l, p.r, addr)
    ensures Answers(stabs, kind, lo, hi, addr, p, p.(any := true, left := m, l := m, addr := addr + 4), w)
  {
    NarrowedShape(stabs, kind, lo, hi, addr, p);
    ClearHitLocates(stabs, kind, lo, hi, addr, p, m);
    var q := Run(stabs, kind, p.(any := true, left := m, l := m, addr := addr + 4));
    LocatedLeft(stabs, kind, lo, hi, addr, Close(stabs, kind, q));
    assert SomeAtMost(stabs, kind, lo, hi, addr);
    hide Ordered, Narrowed, Located, LastAtMost, WrapsBack, Run, Close, Matches;
  }

  /** The answer from the state p of the first exact hit, m. */
  lemma HitExact(stabs: seq<Stab>, kind: int, lo: int, hi: int, addr: nat, p: Probe, m: int)
    requires 0 <= lo && hi < |stabs| && addr < WORD && Ordered(stabs, kind, lo, hi)
    requires Narrowed(stabs, kind, lo, hi, addr, p) && p.l <= m <= p.r && Matches(stabs, kind, m)
    requires p.addr == addr == stabs[m].value
    ensures var n := p.(any := true, left := m, l := m, addr := NextWord(addr));
            && n.InBounds(stabs)
            && Answers(stabs, kind, lo, hi, addr, p, n, if n.addr < addr then m else WrapsAt(stabs, kind, n))
  {
    hide Ordered, Narrowed, Answers, WrapsAt, Clear;
    NarrowedShape(stabs, kind, lo, hi, addr, p);
    var n := p.(any := true, left := m, l := m, addr := NextWord(addr));
    if WORD <= addr + 4 {
      WrapHit(stabs, kind, lo, hi, addr, p, m);
    } else if Clear(stabs, kind, p.l, p.r, addr) {
      ClearHit(stabs, kind, lo, hi, addr, p, m, WrapsAt(stabs, kind, n));
    } else {
      StrayHit(stabs, kind, lo, hi, addr, p, m);
    }
  }

  /** A left bound before an entry that equals the address is not the last at most it. */
  lemma MissesHit(stabs: seq<Stab>, kind: int, lo: int, hi: int, addr: nat, m: int, g: Region)
    requires lo <= m <= hi && Matches(stabs, kind, m) && stabs[m].value == addr && g.left < m
    ensures !Located(stabs, kind, lo, hi, addr, g) && !LastAtMost(stabs, kind, lo, hi, addr, g.left)
    ensures !WrapsBack(stabs, kind, lo, hi, addr, m)
  {
  }

  /** A hit makes the next state, and wraps the target there or never before. */
  lemma AfterHit(stabs: seq<Stab>, kind: int, p: Probe, n: Probe)
    requires p.InBounds(stabs) && p.l <= p.r && n == Step(stabs, kind, p)
    ensures Run(stabs, kind, p) == Run(stabs, kind, n)
    ensures WrapsAt(stabs, kind, p) == if n.addr < p.addr then n.l else WrapsAt(stabs, kind, n)
  {
  }

  /** The search brackets the address if and only if nothing spoils its first exact hit, and its
      left bound is the entry containing the address exactly when, besides, there is one. */
  lemma SearchExact(stabs: seq<Stab>, kind: int, lo: int, hi: int, addr: nat)
    requires 0 <= lo <= hi + 1 && hi < |stabs| && addr < WORD && Ordered(stabs, kind, lo, hi)
    ensures Located(stabs, kind, lo, hi, addr, Search(stabs, kind, lo, hi, addr))
       <==> Unspoilt(stabs, kind, lo, hi, addr)
    ensures LastAtMost(stabs, kind, lo, hi, addr, Search(stabs, kind, lo, hi, addr).left)
       <==> SomeAtMost(stabs, kind, lo, hi, addr) && Unspoilt(stabs, kind, lo, hi, addr)
    ensures addr + 8 < WORD ==>
              var p := UntilHit(stabs, kind, Start(lo, hi, addr));
              Unspoilt(stabs, kind, lo, hi, addr)
              <==> !Hit(stabs, kind, lo, hi, addr) || Clear(stabs, kind, p.l, p.r, addr)
  {
    var start := Start(lo, hi, addr);
    var p := UntilHit(stabs, kind, start);
    RunBounds(stabs, kind, start);
    HitIsMet(stabs, kind, lo, hi, addr);
    StartNarrowed(stabs, kind, lo, hi, addr);
    UntilHitNarrows(stabs, kind, lo, hi, addr, start);
    if p.r < p.l {
      NarrowedShape(stabs, kind, lo, hi, addr, p);
      CloseLocates(stabs, kind, lo, hi, addr, p);
      LocatedLeft(stabs, kind, lo, hi, addr, Close(stabs, kind, p));
      hide Located, LastAtMost, SomeAtMost, WrapsBack, Clear, Hit;
    } else {
      HitIsAtMost(stabs, kind, lo, hi, addr);
      hide Ordered, Narrowed, Located, LastAtMost, SomeAtMost, Clear, WrapsBack;
      hide Run, WrapsAt, UntilHit, Step, Close, Probed, Hit;
      AfterHit(stabs, kind, p, Step(stabs, kind, p));
      HitExact(stabs, kind, lo, hi, addr, p, Probed(stabs, kind, p));
    }
  }

  /** Where the bounds are right, the left one is an entry at or below the address if any is. */
  lemma LocatedLeft(stabs: seq<Stab>, kind: int, lo: int, hi: int, addr: nat, g: Region)
    requires Located(stabs, kind, lo, hi, addr, g)
    ensures LastAtMost(stabs, kind, lo, hi, addr, g.left) <==> SomeAtMost(stabs, kind, lo, hi, addr)
  {
  }

  lemma HitIsAtMost(stabs: seq<Stab>, kind: int, lo: int, hi: int, addr: nat)
    requires Hit(stabs, kind, lo, hi, addr)
    ensures SomeAtMost(stabs, kind, lo, hi, addr)
  {
  }

  lemma StartNarrowed(stabs: seq<Stab>, kind: int, lo: int, hi: int, addr: nat)
    requires 0 <= lo <= hi + 1 && hi < |stabs| && addr < WORD
    ensures Narrowed(stabs, kind, lo, hi, addr, Start(lo, hi, addr))
  {
  }

  /** Without the free word above it an exact hit can spoil the answer for every address and
      every gap of at most a word. */
  lemma HitMaySpoil(addr: nat, gap: nat)
    requires 1 <= gap <= 4 && addr + gap < WORD
    ensures var stabs := [Stab(1, addr), Stab(2, 0), Stab(1, addr + gap)];
            && Ordered(stabs, 1, 0, 2) && !Located(stabs, 1, 0, 2, addr, Search(stabs, 1, 0, 2, addr))
  {
    var stabs := [Stab(1, addr), Stab(2, 0), Stab(1, addr + gap)];
    var p := Start(0, 2, addr);
    assert Nearest(stabs, 1, -1, 0) == 0;
    assert Nearest(stabs, 1, -1, 1) == 0;
    assert Step(stabs, 1, p).addr != addr;
    assert UntilHit(stabs, 1, p) == p;
    assert Matches(stabs, 1, 2);
    assert forall w :: !WrapsBack(stabs, 1, 0, 2, addr, w);
    SearchExact(stabs, 1, 0, 2, addr);
  }

  /** It need not: here the halving meets the later entry first and lowers the right bound. */
  lemma HalvingMaySave(addr: nat, gap: nat)
    requires 1 <= gap <= 4 && addr + 4 < WORD && addr + gap + 1 < WORD
    ensures var stabs := [Stab(1, addr), Stab(1, addr + gap), Stab(1, addr + gap + 1)];
            && Ordered(stabs, 1, 0, 2) && !ClearAbove(stabs, 1, 0, 2, addr)
            && Located(stabs, 1, 0, 2, addr, Search(stabs, 1, 0, 2, addr))
  {
    var stabs := [Stab(1, addr), Stab(1, addr + gap), Stab(1, addr + gap + 1)];
    var p := Start(0, 2, addr);
    var q := p.(any := true, right := 0, r := 0);
    assert Step(stabs, 1, p) == q;
    assert Step(stabs, 1, q).addr != addr;
    assert UntilHit(stabs, 1, q) == q;
    assert Matches(stabs, 1, 0) && Matches(stabs, 1, 1);
    assert Clear(stabs, 1, q.l, q.r, addr);
    SearchExact(stabs, 1, 0, 2, addr);
  }

  /** At the top of the address space a hit always spoils the answer. */
  lemma TopHitSpoils(stabs: seq<Stab>, kind: int, lo: int, hi: int, addr: nat)
    requires 0 <= lo <= hi + 1 && hi < |stabs| && addr < WORD <= addr + 4
    requires Ordered(stabs, kind, lo, hi)
    ensures Located(stabs, kind, lo, hi, addr, Search(stabs, kind, lo, hi, addr)) <==> !Hit(stabs, kind, lo, hi, addr)
  {
    HitIsMet(stabs, kind, lo, hi, addr);
    SearchExact(stabs, kind, lo, hi, addr);
    var p := UntilHit(stabs, kind, Start(lo, hi, addr));
    StartNarrowed(stabs, kind, lo, hi, addr);
    UntilHitNarrows(stabs, kind, lo, hi, addr, Start(lo, hi, addr));
    if p.l <= p.r {
      AfterHit(stabs, kind, p, Step(stabs, kind, p));
      assert !Clear(stabs, kind, p.l, p.r, addr);
      assert WrapsAt(stabs, kind, p) == Probed(stabs, kind, p);
    }
  }

  /** The search meets an exact hit if and only if the region has one. */
  lemma HitIsMet(stabs: seq<Stab>, kind: int, lo: int, hi: int, addr: nat)
    requires 0 <= lo <= hi + 1 && hi < |stabs| && addr < WORD && Ordered(stabs, kind, lo, hi)
    ensures var p := UntilHit(stabs, kind, Start(lo, hi, addr));
            p.l <= p.r <==> Hit(stabs, kind, lo, hi, addr)
  {
    var p := UntilHit(stabs, kind, Start(lo, hi, addr));
    StartNarrowed(stabs, kind, lo, hi, addr);
    UntilHitNarrows(stabs, kind, lo, hi, addr, Start(lo, hi, addr));
    if Hit(stabs, kind, lo, hi, addr) {
      var h :| lo <= h <= hi && Matches(stabs, kind, h) && stabs[h].value == addr;
      HitStaysOpen(stabs, kind, lo, hi, addr, Start(lo, hi, addr), h);
    }
  }

  lemma {:induction false} HitStaysOpen(stabs: seq<Stab>, kind: int, lo: int, hi: int, addr: nat, p: Probe, h: int)
    requires 0 <= lo <= p.l && p.r <= hi < |stabs| && addr < WORD && Ordered(stabs, kind, lo, hi)
    requires p.addr == addr && p.l <= h <= p.r && Matches(stabs, kind, h) && stabs[h].value == addr
    ensures var q := UntilHit(stabs, kind, p); q.l <= h <= q.r
    decreases p.r - p.l
  {
    var q := Step(stabs, kind, p);
    NearestIsNearest(stabs, kind, p.l - 1, Middle(p.l, p.r));
    if q.addr == addr { HitStaysOpen(stabs, kind, lo, hi, addr, q, h); }
  }
}
