/** Environment slots, their ids and their free list (kern/user_environment.c,
    kern/helpers.c).

    An id is a generation, a positive multiple of 2^12, plus the slot number.  Ids are
    signed 32-bit integers, so the generations of a slot run round a cycle. */
module EnvIds {
  import opened Common

  const GENERATION: int := 4096            // 1 << ENVGENSHIFT
  const SIGN: int := 0x8000_0000
  /** How many positive multiples of GENERATION a signed 32-bit integer can hold. */
  const PERIOD: int := 0x8_0000 - 1

  /** The slots are a power of two in number, at most one generation step. */
  predicate SlotCount(nenv: nat) {
    0 < nenv <= GENERATION && GENERATION % nenv == 0
  }

  /** The two's-complement value of the low 32 bits. */
  function ToInt32(x: int): (r: int)
    ensures -SIGN <= r < SIGN
  {
    (x + SIGN) % (2 * SIGN) - SIGN
  }

  /** x & ~(nenv - 1): clears the slot bits. */
  function ClearSlot(x: int, nenv: nat): int
    requires SlotCount(nenv)
  {
    x - x % nenv
  }

  /** ENVX: the slot bits of an id. */
  function SlotOf(id: int, nenv: nat): (s: nat)
    requires SlotCount(nenv)
    ensures s < nenv
  {
    id % nenv
  }

  /** The id that follows in a slot. */
  function NextId(id: int, slot: nat, nenv: nat): int
    requires SlotCount(nenv) && slot < nenv
  {
    var generation := ClearSlot(ToInt32(id + GENERATION), nenv);
    (if generation <= 0 then GENERATION else generation) + slot
  }

  /** The id of the count-th incarnation of a slot; a slot never used has id 0. */
  function Issued(slot: nat, count: nat): int {
    if count == 0 then 0 else GENERATION * (1 + (count - 1) % PERIOD) + slot
  }

  // ---------------------------------------------------------------- arithmetic

  lemma ClearSlotOfSum(g: int, slot: nat, nenv: nat)
    requires SlotCount(nenv) && slot < nenv && g % GENERATION == 0
    ensures ClearSlot(g + slot, nenv) == g && (g + slot) % nenv == slot
  {
    var q, w := g / GENERATION, GENERATION / nenv;
    assert g == q * w * nenv by {
      assert GENERATION == w * nenv;
      assert g == q * GENERATION;
    }
    ModOfSum(q * w, nenv, slot);
  }

  lemma ModOfSum(k: int, n: nat, s: nat)
    requires s < n
    ensures (k * n + s) % n == s
  {
    var x := k * n + s;
    assert x == n * (x / n) + x % n;
    SmallMultiple(n, x / n - k, s - x % n);
  }

  lemma SmallMultiple(n: int, d: int, e: int)
    requires 0 <= n && n * d == e && -n < e < n
    ensures d == 0
  {
    if d > 0 {
      MultipleAtLeast(n, d);
    } else if d < 0 {
      MultipleAtLeast(n, -d);
    }
  }

  lemma MultipleAtLeast(n: int, d: int)
    requires 0 <= n && 0 < d
    ensures n <= n * d
  {
    assert n * d == n + n * (d - 1);
  }

  lemma Wraps(x: int)
    ensures -SIGN <= x < SIGN ==> ToInt32(x) == x
    ensures SIGN <= x < 3 * SIGN ==> ToInt32(x) == x - 2 * SIGN
  {
  }

  /** Counting an incarnation is exactly computing the next id, wrap-around included. */
  lemma {:induction false} IssuedStep(slot: nat, count: nat, nenv: nat)
    requires SlotCount(nenv) && slot < nenv
    ensures NextId(Issued(slot, count), slot, nenv) == Issued(slot, count + 1)
  {
    if count == 0 {
      Wraps(GENERATION);
      ClearSlotOfSum(GENERATION, 0, nenv);
    } else {
      var k := (count - 1) % PERIOD;
      var next := GENERATION * (2 + k);
      assert Issued(slot, count) + GENERATION == next + slot;
      Wraps(next + slot);
      if k + 1 < PERIOD {
        Cycle(count - 1);
        ClearSlotOfSum(next, slot, nenv);
      } else {
        Cycle(count - 1);
        ClearSlotOfSum(next - 2 * SIGN, slot, nenv);
      }
    }
  }

  lemma Cycle(c: nat)
    ensures (c + 1) % PERIOD == if c % PERIOD + 1 < PERIOD then c % PERIOD + 1 else 0
  {
  }

  /** The next id is the first one for a slot never used, and otherwise a generation further, or
      the first one again when that leaves the signed 32-bit range. */
  lemma IssuedNext(slot: nat, count: nat, nenv: nat)
    requires SlotCount(nenv) && slot < nenv
    ensures var id := Issued(slot, count);
            Issued(slot, count + 1) == if id == 0 || SIGN <= id + 4096 then 4096 + slot else id + 4096
  {
    if 0 < count { Cycle(count - 1); }
  }

  /** Every issued id is a positive signed 32-bit integer whose low bits are its slot. */
  lemma IssuedShape(slot: nat, count: nat, nenv: nat)
    requires SlotCount(nenv) && slot < nenv && 0 < count
    ensures 0 < Issued(slot, count) < SIGN && SlotOf(Issued(slot, count), nenv) == slot
  {
    ClearSlotOfSum(Issued(slot, count) - slot, slot, nenv);
  }

  /** Two incarnations carry the same id exactly when they are incarnations of one slot a
      multiple of 2^19 - 1 apart. */
  lemma SameId(s: nat, c: nat, t: nat, d: nat, nenv: nat)
    requires SlotCount(nenv) && s < nenv && t < nenv && 0 < c && 0 < d
    ensures Issued(s, c) == Issued(t, d) <==> s == t && (c - d) % PERIOD == 0
  {
    IssuedShape(s, c, nenv);
    IssuedShape(t, d, nenv);
    SameResidue(c - 1, d - 1);
  }

  lemma SameResidue(x: int, y: int)
    ensures (x - y) % PERIOD == 0 <==> x % PERIOD == y % PERIOD
  {
    var i, j := x % PERIOD, y % PERIOD;
    assert x - y == PERIOD * (x / PERIOD - y / PERIOD) + (i - j);
    assert -PERIOD < i - j < PERIOD;
  }

  // ---------------------------------------------------------------- the table

  datatype Status = Free | Runnable

  /** The list holds exactly the free slots, each once. */
  ghost predicate Chained(list: seq<nat>, status: seq<Status>) {
    && Distinct(list)
    && forall s: nat :: s in list <==> s < |status| && status[s] == Free
  }

  /** The free list right after start-up: slot lo first, then upwards. */
  ghost predicate InOrder(list: seq<nat>, lo: nat, hi: nat) {
    lo <= hi && |list| == hi - lo && forall i | 0 <= i < |list| :: list[i] == lo + i
  }

  lemma InOrderMembers(list: seq<nat>, lo: nat, hi: nat)
    requires InOrder(list, lo, hi)
    ensures Distinct(list) && forall s :: s in list <==> lo <= s < hi
  {
    forall s | lo <= s < hi
      ensures s in list
    {
      assert list[s - lo] == s;
    }
  }

  /** rest is the list with e cut out of it. */
  ghost predicate IsCut(list: seq<nat>, e: nat, rest: seq<nat>) {
    exists i | 0 <= i < |list| :: list[i] == e && rest == list[..i] + list[i + 1..]
  }

  lemma CutOut(list: seq<nat>, e: nat)
    requires Distinct(list) && e in list
    ensures IsCut(list, e, Without(list, e))
  {
    var i :| 0 <= i < |list| && list[i] == e;
    assert list == list[..i] + [e] + list[i + 1..];
    WithoutKeepsOrder(list[..i], e, list[i + 1..]);
  }

  /** The envs array with its free list.  The history counts the incarnations of a slot. */
  class EnvTable {
    const nenv: nat
    const ids: array<int>
    const status: array<Status>
    const parents: array<int>
    var freeList: seq<nat>
    var current: Option<nat>
    ghost var history: seq<nat>

    ghost predicate Valid()
      reads this, ids, status, parents
    {
      && SlotCount(nenv) && ids.Length == status.Length == parents.Length == |history| == nenv
      && ids != parents
      && (forall s | 0 <= s < nenv :: ids[s] == Issued(s, history[s]))
      && (forall s | 0 <= s < nenv :: status[s] == Runnable ==> 0 < history[s])
      && Chained(freeList, status[..])
      && (current.Some? ==> current.value < nenv)
    }

    constructor (nenv: nat)
      requires SlotCount(nenv)
      ensures Valid() && this.nenv == nenv
      ensures fresh(ids) && fresh(status) && fresh(parents)
      ensures InOrder(freeList, 0, nenv) && forall s | 0 <= s < nenv :: history[s] == 0
    {
      this.nenv := nenv;
      ids := new int[nenv];
      status := new Status[nenv];
      parents := new int[nenv];
      freeList := [];
      current := None;
      history := seq(nenv, _ => 0);
      new;
      EnvInit();
      InOrderMembers(freeList, 0, nenv);
    }

    /** Marks every slot free and chains them so that slot 0 comes first. */
    method EnvInit()
      requires ids.Length == status.Length == nenv && freeList == []
      modifies this`freeList, ids, status
      ensures forall s | 0 <= s < nenv :: status[s] == Free && ids[s] == 0
      ensures InOrder(freeList, 0, nenv)
    {
      var e := nenv;
      while 0 < e
        invariant 0 <= e <= nenv
        invariant forall s | e <= s < nenv :: status[s] == Free && ids[s] == 0
        invariant InOrder(freeList, e, nenv)
      {
        e := e - 1;
        status[e] := Free;
        ids[e] := 0;
        freeList := [e] + freeList;
      }
    }

    /** Names the first free slot; the slot stays listed until it is initialised. */
    method AllocateEnvironment() returns (e: Option<nat>)
      requires Valid()
      ensures e == if freeList == [] then None else Some(freeList[0])
      ensures e.Some? ==> e.value < nenv && status[e.value] == Free
      ensures e.None? ==> forall s | 0 <= s < nenv :: status[s] == Runnable
    {
      if freeList == [] { return None; }
      assert freeList[0] in freeList;
      e := Some(freeList[0]);
    }

    /** Gives slot e its next id and takes it off the free list. */
    method CompleteInitialization(e: nat)
      requires Valid() && e in freeList
      modifies this`freeList, this`history, ids, status, parents
      ensures Valid()
      ensures history == old(history)[e := old(history[e]) + 1]
      ensures status[..] == old(status[..])[e := Runnable] && freeList == Without(old(freeList), e)
      ensures 0 < ids[e] < SIGN && SlotOf(ids[e], nenv) == e && parents[e] == 0
      ensures ids[e] == if old(ids[e]) == 0 || SIGN <= old(ids[e]) + 4096 then 4096 + e else old(ids[e]) + 4096
      ensures forall s | 0 <= s < nenv && s != e :: parents[s] == old(parents[s])
      ensures IsCut(old(freeList), e, freeList)
      ensures forall s | 0 <= s < nenv && s != e :: ids[s] == old(ids[s])
    {
      hide IsCut, Without, ToInt32, ClearSlot, SlotOf, Issued;
      IssuedStep(e, history[e], nenv);
      IssuedNext(e, history[e], nenv);
      CutOut(freeList, e);
      var generation := ClearSlot(ToInt32(ids[e] + GENERATION), nenv);
      if generation <= 0 {
        generation := GENERATION;
      }
      ids[e] := generation + e;
      parents[e] := 0;
      status[e] := Runnable;
      freeList := Without(freeList, e);
      history := history[e := history[e] + 1];
      IssuedShape(e, history[e], nenv);
    }

    /** The context switch makes e current (only its effect on curenv is modelled). */
    method EnvRun(e: nat)
      requires Valid() && e < nenv
      modifies this`current
      ensures Valid() && current == Some(e)
    {
      current := Some(e);
    }

    /** Returns a slot to the head of the free list; its id is kept for the next round. */
    method FreeEnvironment(e: nat)
      requires Valid() && e < nenv && status[e] != Free
      modifies this`freeList, this`current, status
      ensures Valid() && current == None
      ensures status[..] == old(status[..])[e := Free] && freeList == [e] + old(freeList)
    {
      current := None;
      status[e] := Free;
      InsertDistinct(e, freeList);
      freeList := [e] + freeList;
    }

    /** An id other than 0 names the incarnation that received it, and so do the ids a
        multiple of the period away; it resolves only while the slot is live. */
    method EnvId2Env(envid: int, checkPerm: bool) returns (ok: bool, env: Option<nat>)
      requires Valid() && -SIGN <= envid < SIGN
      requires checkPerm && envid != 0 ==> current.Some?
      ensures envid == 0 ==> ok && env == current
      ensures envid != 0 ==> (ok <==> env.Some?)
      ensures envid != 0 && ok ==> env.value < nenv && status[env.value] != Free && ids[env.value] == envid
      ensures envid != 0 && !checkPerm ==>
                forall s: nat, c: nat | s < nenv && 0 < c && Issued(s, c) == envid ::
                  if status[s] != Free && (history[s] - c) % PERIOD == 0 then env == Some(s) else !ok
      ensures envid != 0 && !checkPerm ==>
                (ok <==> exists s: nat :: s < nenv && status[s] != Free && ids[s] == envid)
      ensures envid != 0 && checkPerm ==>
                (ok <==> var s := SlotOf(envid, nenv);
                         && status[s] != Free && ids[s] == envid
                         && (Some(s) == current || parents[s] == ids[current.value]))
    {
      if envid == 0 {
        return true, current;
      }
      var e := SlotOf(envid, nenv);
      forall s: nat, c: nat | s < nenv && 0 < c && Issued(s, c) == envid
        ensures s == e && (status[s] != Free ==> (ids[s] == envid <==> (history[s] - c) % PERIOD == 0))
      {
        IssuedShape(s, c, nenv);
        if status[s] != Free { SameId(s, history[s], s, c, nenv); }
      }
      forall s: nat | s < nenv && status[s] != Free && ids[s] == envid
        ensures s == e
      {
        IssuedShape(s, history[s], nenv);
      }
      if status[e] == Free || ids[e] != envid {
        return false, None;
      }
      if checkPerm && Some(e) != current && parents[e] != ids[current.value] {
        return false, None;
      }
      return true, Some(e);
    }
  }

  /** An id of an earlier incarnation is never the current id of any slot until the slot
      has been reused 2^19 - 1 times, and at that point it is. */
  lemma StaleWithinPeriod(s: nat, c: nat, t: nat, current: nat, nenv: nat)
    requires SlotCount(nenv) && s < nenv && t < nenv && 0 < c && 0 < current
    requires s == t ==> c <= current <= c + PERIOD
    ensures Issued(t, current) == Issued(s, c) <==> s == t && (current == c || current == c + PERIOD)
  {
    SameId(t, current, s, c, nenv);
  }
}
