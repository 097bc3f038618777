/** The two placement searches of kheap.c and uheap.c, in whole pages: the heap is the
    sequence of its pages' isEmpty flags, and a size is a number of pages. */
module HeapSearch {
  import opened Common

  /** ROUNDUP(size, PAGE_SIZE) in 32-bit arithmetic, as a number of pages. */
  function PagesOf(size: nat): nat {
    (size + PAGE_SIZE - 1) % WORD / PAGE_SIZE
  }

  /** Enough pages for the size and no page more.  Nothing is asked for a size of 0, and the sum
      wraps to nothing for the last page's worth of sizes. */
  predicate RoundsUp(size: nat, k: nat) {
    if 0 < size && size + PAGE_SIZE - 1 < WORD then (k - 1) * PAGE_SIZE < size <= k * PAGE_SIZE
    else k == 0
  }

  lemma PagesCover(size: nat)
    requires size < WORD
    ensures RoundsUp(size, PagesOf(size))
  {
  }

  // ---------------------------------------------------------------- windows

  /** k free pages from s, all within [lo, hi). */
  predicate Window(free: seq<bool>, lo: nat, hi: nat, k: nat, s: nat) {
    lo <= s && s + k <= hi <= |free| && forall i | s <= i < s + k :: free[i]
  }

  ghost predicate Fits(free: seq<bool>, lo: nat, hi: nat, k: nat) {
    exists s: nat :: Window(free, lo, hi, k, s)
  }

  /** The first window of [lo, hi).  No window is ever found for a size of no pages. */
  function FirstWindow(free: seq<bool>, lo: nat, hi: nat, k: nat): (r: Option<nat>)
    requires hi <= |free|
    decreases hi - lo
  {
    if k == 0 || hi < lo + k then None
    else if Window(free, lo, hi, k, lo) then Some(lo)
    else FirstWindow(free, lo + 1, hi, k)
  }

  /** Next fit: the first window at or after the hint, else the first one that ends by it. */
  function NextFitOf(free: seq<bool>, hint: nat, k: nat): Option<nat>
    requires hint <= |free|
  {
    var r := FirstWindow(free, hint, |free|, k);
    if r.Some? then r else FirstWindow(free, 0, hint, k)
  }

  lemma {:induction false} FirstWindowIsFirst(free: seq<bool>, lo: nat, hi: nat, k: nat)
    requires hi <= |free| && 0 < k
    ensures match FirstWindow(free, lo, hi, k)
            case None => !Fits(free, lo, hi, k)
            case Some(s) => Window(free, lo, hi, k, s) && forall t: nat | t < s :: !Window(free, lo, hi, k, t)
    decreases hi - lo
  {
    if lo + k <= hi && !Window(free, lo, hi, k, lo) {
      FirstWindowIsFirst(free, lo + 1, hi, k);
      assert forall t: nat :: Window(free, lo, hi, k, t) <==> Window(free, lo + 1, hi, k, t);
    }
  }

  /** Next fit prefers the first window wholly at or after the hint, and only without one takes
      the first that ends by it. */
  lemma NextFitExact(free: seq<bool>, hint: nat, k: nat)
    requires hint <= |free|
    ensures k == 0 ==> NextFitOf(free, hint, k) == None
    ensures 0 < k ==>
              match NextFitOf(free, hint, k)
              case None => !Fits(free, hint, |free|, k) && !Fits(free, 0, hint, k)
              case Some(s) =>
                if Fits(free, hint, |free|, k) then
                  Window(free, hint, |free|, k, s) && forall t: nat | t < s :: !Window(free, hint, |free|, k, t)
                else
                  Window(free, 0, hint, k, s) && forall t: nat | t < s :: !Window(free, 0, hint, k, t)
  {
    if 0 < k {
      FirstWindowIsFirst(free, hint, |free|, k);
      FirstWindowIsFirst(free, 0, hint, k);
    }
  }

  /** Next fit fails exactly when neither side of the hint holds a window. */
  lemma NextFitFails(free: seq<bool>, hint: nat, k: nat)
    requires hint <= |free| && 0 < k
    ensures NextFitOf(free, hint, k).None? <==> !Fits(free, hint, |free|, k) && !Fits(free, 0, hint, k)
  {
    FirstWindowIsFirst(free, hint, |free|, k);
    FirstWindowIsFirst(free, 0, hint, k);
  }

  /** It never joins free pages across the hint, yet a run of 2k - 1 free pages always
      leaves a window of k on one side. */
  lemma LongRunSuffices(free: seq<bool>, hint: nat, k: nat, s: nat)
    requires hint <= |free| && 0 < k && Window(free, 0, |free|, 2 * k - 1, s)
    ensures NextFitOf(free, hint, k).Some?
  {
    NextFitFails(free, hint, k);
    if hint < s + k {
      var t := if s <= hint then hint else s;
      assert Window(free, hint, |free|, k, t);
    } else {
      assert Window(free, 0, hint, k, s);
    }
  }

  /** A run of 2k - 2 is not enough: the hint can cut it in two halves of k - 1. */
  lemma ShorterRunMayFail(k: nat)
    requires 2 <= k
    ensures var free := seq(2 * k - 2, _ => true);
            && Window(free, 0, |free|, 2 * k - 2, 0)
            && NextFitOf(free, k - 1, k).None?
  {
    var free := seq(2 * k - 2, _ => true);
    NextFitFails(free, k - 1, k);
  }

  // ---------------------------------------------------------------- runs

  /** len free pages from s that no free page adjoins. */
  ghost predicate MaximalRun(free: seq<bool>, s: nat, len: nat) {
    && 0 < len && s + len <= |free|
    && (forall i | s <= i < s + len :: free[i])
    && (0 < s ==> !free[s - 1])
    && (s + len < |free| ==> !free[s + len])
  }

  /** s starts the leftmost of the shortest maximal runs of at least k pages. */
  ghost predicate BestRun(free: seq<bool>, k: nat, s: nat) {
    exists len: nat :: MaximalRun(free, s, len) && k <= len && Shortest(free, k, s, len, |free|)
  }

  /** No maximal run of at least k pages that ends before page end is shorter, and none of
      that length lies further left. */
  ghost predicate Shortest(free: seq<bool>, k: nat, s: nat, len: nat, end: int) {
    forall t: nat, l: nat | MaximalRun(free, t, l) && k <= l && t + l <= end :: len < l || (len == l && s <= t)
  }

  /** The length of the free run that ends the heap. */
  function Trailing(free: seq<bool>): nat {
    if free == [] || !free[|free| - 1] then 0 else 1 + Trailing(free[..|free| - 1])
  }

  lemma {:induction false} TrailingIsRun(free: seq<bool>)
    ensures Trailing(free) <= |free|
    ensures forall i | |free| - Trailing(free) <= i < |free| :: free[i]
    ensures Trailing(free) < |free| ==> !free[|free| - Trailing(free) - 1]
  {
    if free != [] && free[|free| - 1] { TrailingIsRun(free[..|free| - 1]); }
  }

  /** What best fit answers: the best run, but only if the run that ends the heap is long
      enough itself. */
  ghost predicate BestFits(free: seq<bool>, k: nat, r: Option<nat>) {
    match r
    case None => Trailing(free) < k || Trailing(free) == 0
    case Some(s) => 0 < Trailing(free) && k <= Trailing(free) && BestRun(free, k, s)
  }

  /** A successful best fit is a window of k pages in the tightest run that has one. */
  lemma BestFitIsTightest(free: seq<bool>, k: nat, s: nat)
    requires 0 < k && BestFits(free, k, Some(s))
    ensures Window(free, 0, |free|, k, s)
    ensures forall t: nat, l: nat | MaximalRun(free, t, l) && k <= l ::
              exists len: nat :: MaximalRun(free, s, len) && len <= l
  {
    var len: nat :| MaximalRun(free, s, len) && k <= len && Shortest(free, k, s, len, |free|);
  }

  /** Best fit answers exactly when the last k pages of the heap are free, and then with the start
      of the leftmost among the shortest runs that fit. */
  lemma BestFitExact(free: seq<bool>, k: nat, r: Option<nat>)
    requires 0 < k && BestFits(free, k, r)
    ensures r.Some? <==> k <= |free| && Window(free, 0, |free|, k, |free| - k)
    ensures r.Some? ==>
              exists len: nat ::
                && MaximalRun(free, r.value, len) && k <= len
                && (forall t: nat, l: nat | MaximalRun(free, t, l) && k <= l :: len <= l)
                && forall t: nat | MaximalRun(free, t, len) :: r.value <= t
  {
    TrailingIsRun(free);
    if r.Some? {
      var len: nat :| MaximalRun(free, r.value, len) && k <= len && Shortest(free, k, r.value, len, |free|);
      forall t: nat | MaximalRun(free, t, len)
        ensures r.value <= t
      {
      }
    }
  }

  /** Best fit was meant to fail only when nothing fits.  It does so exactly when the run at
      the end of the heap is long enough or no run is. */
  lemma BestFitIntended(free: seq<bool>, k: nat, r: Option<nat>)
    requires 0 < k && BestFits(free, k, r)
    ensures (r.None? ==> !Fits(free, 0, |free|, k)) <==> k <= Trailing(free) || !Fits(free, 0, |free|, k)
  {
    TrailingIsRun(free);
    if k <= Trailing(free) {
      assert Window(free, 0, |free|, k, |free| - k);
    }
  }

  /** A heap with room for the request whose last page is taken. */
  lemma BestFitRefusesRoom()
    ensures var free := [true, true, false];
            Fits(free, 0, 3, 2) && forall r :: BestFits(free, 2, r) ==> r.None?
  {
    assert Window([true, true, false], 0, 3, 2, 0);
  }

  // ---------------------------------------------------------------- the searches as written

  method GetStartAddress(isEmpty: array<bool>, start: nat, end: nat, k: nat) returns (r: Option<nat>)
    requires end <= isEmpty.Length
    ensures r == FirstWindow(isEmpty[..], start, end, k)
  {
    ghost var free := isEmpty[..];
    var current, freeSize := start, 0;
    while current < end
      invariant start <= current && (start <= end ==> current <= end)
      invariant freeSize <= current - start && (0 < k ==> freeSize < k) && (freeSize == 0 || current <= end)
      invariant forall i | current - freeSize <= i < current :: free[i]
      invariant 0 < k ==> FirstWindow(free, start, end, k) == FirstWindow(free, current - freeSize, end, k)
    {
      if isEmpty[current] {
        freeSize := freeSize + 1;
        if freeSize == k {
          return Some(current + 1 - k);
        }
      } else {
        if 0 < k { SkipBlocked(free, current - freeSize, end, k, current); }
        freeSize := 0;
      }
      current := current + 1;
    }
    return None;
  }

  /** No window covers a page in use. */
  lemma {:induction false} SkipBlocked(free: seq<bool>, lo: nat, hi: nat, k: nat, used: nat)
    requires hi <= |free| && lo <= used < hi && !free[used] && used < lo + k
    ensures FirstWindow(free, lo, hi, k) == FirstWindow(free, used + 1, hi, k)
    decreases used - lo
  {
    if lo < used && lo + k <= hi {
      SkipBlocked(free, lo + 1, hi, k, used);
    }
  }

  method NextFit(isEmpty: array<bool>, hint: nat, k: nat) returns (r: Option<nat>)
    requires hint <= isEmpty.Length
    ensures r == NextFitOf(isEmpty[..], hint, k)
    ensures r.Some? ==> Window(isEmpty[..], 0, isEmpty.Length, k, r.value)
    ensures r.Some? && 0 < k && Fits(isEmpty[..], hint, isEmpty.Length, k) ==> hint <= r.value
  {
    NextFitExact(isEmpty[..], hint, k);
    r := GetStartAddress(isEmpty, hint, isEmpty.Length, k);
    if r.Some? { return r; }
    r := GetStartAddress(isEmpty, 0, hint, k);
  }

  /** The open block: the free run that ends at page end, or -1 if page end - 1 is in use. */
  ghost predicate OpenBlock(free: seq<bool>, end: nat, start: nat, frames: int)
    requires end <= |free|
  {
    if frames == -1 then end == 0 || !free[end - 1]
    else && 0 < frames && start + frames == end
         && (forall i | start <= i < end :: free[i])
         && (0 < start ==> !free[start - 1])
  }

  /** The best of the runs that end before page end; frames is one more than any run's length
      when there is none of at least k pages. */
  ghost predicate BestSoFar(free: seq<bool>, k: nat, end: int, start: nat, frames: int) {
    if frames == |free| + 1 then NoneSoFar(free, k, end)
    else && 0 < frames && start + frames < end && MaximalRun(free, start, frames)
         && k <= frames && Shortest(free, k, start, frames, end - 1)
  }

  ghost predicate NoneSoFar(free: seq<bool>, k: nat, end: int) {
    forall t: nat, l: nat | MaximalRun(free, t, l) && k <= l :: end <= t + l
  }

  /** A free page ends no run. */
  lemma OpenRun(free: seq<bool>, k: nat, end: nat, start: nat, frames: int)
    requires end < |free| && free[end] && BestSoFar(free, k, end, start, frames)
    ensures BestSoFar(free, k, end + 1, start, frames)
  {
    assert forall t: nat, l: nat | MaximalRun(free, t, l) :: t + l != end;
  }

  /** At a page in use, or at the end of the heap, the open block becomes a run, the only one
      that ends there. */
  lemma CloseRun(free: seq<bool>, k: nat, end: nat, blockStart: nat, blockFrames: int, start: nat, frames: int)
    requires end <= |free| && (end < |free| ==> !free[end]) && OpenBlock(free, end, blockStart, blockFrames)
    requires BestSoFar(free, k, end, start, frames)
    ensures if k <= blockFrames < frames then BestSoFar(free, k, end + 1, blockStart, blockFrames)
            else BestSoFar(free, k, end + 1, start, frames)
  {
    if blockFrames != -1 {
      assert MaximalRun(free, blockStart, blockFrames);
    }
    forall t: nat, l: nat | MaximalRun(free, t, l) && t + l == end
      ensures blockFrames == l && blockStart == t
    {
      assert free[end - 1];
    }
  }

  /** The open block at the end of the heap is the trailing run. */
  lemma LastBlock(free: seq<bool>, start: nat, frames: int)
    requires OpenBlock(free, |free|, start, frames)
    ensures Trailing(free) == if frames == -1 then 0 else frames
  {
    TrailingIsRun(free);
  }

  method BestFit(isEmpty: array<bool>, targetFrames: nat) returns (r: Option<nat>)
    ensures BestFits(isEmpty[..], targetFrames, r)
  {
    ghost var free := isEmpty[..];
    var bestStart, bestFrames := 0, isEmpty.Length + 1;
    var blockStart, blockFrames := 0, -1;
    var start := 0;
    while start < isEmpty.Length
      invariant start <= isEmpty.Length
      invariant OpenBlock(free, start, blockStart, blockFrames)
      invariant BestSoFar(free, targetFrames, start, bestStart, bestFrames)
    {
      if isEmpty[start] {
        if blockFrames == -1 {
          blockStart := start;
          blockFrames := 0;
        }
        blockFrames := blockFrames + 1;
        OpenRun(free, targetFrames, start, bestStart, bestFrames);
      } else {
        CloseRun(free, targetFrames, start, blockStart, blockFrames, bestStart, bestFrames);
        if blockFrames >= targetFrames && bestFrames > blockFrames {
          bestStart, bestFrames := blockStart, blockFrames;
        }
        blockFrames := -1;
      }
      start := start + 1;
    }
    LastBlock(free, blockStart, blockFrames);
    CloseRun(free, targetFrames, start, blockStart, blockFrames, bestStart, bestFrames);
    if blockFrames >= targetFrames && bestFrames > blockFrames {
      bestStart, bestFrames := blockStart, blockFrames;
    }
    if blockFrames < targetFrames { return None; }
    return Some(bestStart);
  }

  // ---------------------------------------------------------------- what an allocator does with them

  /** How an allocation ends: with 0, with the panic of a kernel that has run out of frames or
      of page file, or with an address. */
  datatype Allocation = NoSpace | Exhausted | At(address: nat)

  /** The place either strategy finds for k pages. */
  ghost predicate Placed(free: seq<bool>, hint: nat, k: nat, bestFit: bool, place: Option<nat>)
    requires hint <= |free|
  {
    if bestFit then BestFits(free, k, place) else place == NextFitOf(free, hint, k)
  }

  lemma PlacedIsWindow(free: seq<bool>, hint: nat, k: nat, bestFit: bool, s: nat)
    requires hint <= |free| && Placed(free, hint, k, bestFit, Some(s))
    ensures Window(free, 0, |free|, k, s) && s + k <= |free|
  {
    if bestFit {
      var len: nat :| MaximalRun(free, s, len) && k <= len;
    } else if 0 < k {
      FirstWindowIsFirst(free, hint, |free|, k);
      FirstWindowIsFirst(free, 0, hint, k);
    }
  }

  method Place(isEmpty: array<bool>, hint: nat, k: nat, bestFit: bool) returns (place: Option<nat>)
    requires hint <= isEmpty.Length
    ensures Placed(isEmpty[..], hint, k, bestFit, place)
  {
    if bestFit {
      place := BestFit(isEmpty, k);
    } else {
      place := NextFit(isEmpty, hint, k);
    }
  }
}
