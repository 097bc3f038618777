/** The ready queues of sched.c under round robin and the multi-level feedback queue.  A queue
    is the sequence of its members with the head first: environments enter at the head and
    leave at the tail. */
module Scheduler {
  import opened Common

  /** An environment, by its slot. */
  type Env = nat

  /** index is indexToEnqueue, the queue the running environment will re-enter, and level the
      queue it was picked from, which the code does not record. */
  datatype Sched = Sched(queues: seq<seq<Env>>, index: nat, cur: Option<Env>, level: nat)

  function Levels(s: Sched): nat { |s.queues| }

  predicate WellFormed(s: Sched) {
    s.index < Levels(s) && (s.cur.Some? ==> s.level < Levels(s))
  }

  // ---------------------------------------------------------------- one scheduling step

  function Enqueue(queues: seq<seq<Env>>, i: nat, e: Env): seq<seq<Env>>
    requires i < |queues|
  {
    queues[i := [e] + queues[i]]
  }

  function Dequeue(queues: seq<seq<Env>>, i: nat): seq<seq<Env>>
    requires i < |queues| && queues[i] != []
  {
    queues[i := queues[i][..|queues[i]| - 1]]
  }

  function Tail(q: seq<Env>): Env
    requires q != []
  {
    q[|q| - 1]
  }

  /** The first queue from i that is not empty, or -1. */
  function Selected(queues: seq<seq<Env>>, i: nat): (j: int)
    requires i <= |queues|
    ensures j == -1 || (i <= j < |queues| && queues[j] != [])
    ensures forall k | i <= k < (if j == -1 then |queues| else j) :: queues[k] == []
    decreases |queues| - i
  {
    if i == |queues| then -1 else if queues[i] != [] then i else Selected(queues, i + 1)
  }

  /** The queues once the running environment has been put back. */
  function Requeued(s: Sched): seq<seq<Env>>
    requires WellFormed(s)
  {
    match s.cur case None => s.queues case Some(e) => Enqueue(s.queues, s.index, e)
  }

  /** fos_scheduler under MLFQ: the running environment is put back, and the tail of the first
      queue that is not empty runs next. */
  function Step(s: Sched): (t: Sched)
    requires WellFormed(s)
    ensures WellFormed(t) && Levels(t) == Levels(s)
  {
    var queues := Requeued(s);
    var j := Selected(queues, 0);
    if j == -1 then Sched(queues, s.index, None, s.level)
    else Sched(Dequeue(queues, j), if j + 1 != |queues| then j + 1 else s.index, Some(Tail(queues[j])), j)
  }

  /** fos_scheduler under round robin: the same with the first queue alone. */
  function RoundRobin(s: Sched): Sched
    requires 0 < Levels(s)
  {
    var queues := match s.cur case None => s.queues case Some(e) => Enqueue(s.queues, 0, e);
    if queues[0] == [] then Sched(queues, s.index, None, s.level)
    else Sched(Dequeue(queues, 0), s.index, Some(Tail(queues[0])), 0)
  }

  /** Queue i with the process that was running back in it: it is the newest there. */
  function Waiting(s: Sched, i: nat): seq<Env>
    requires i < |s.queues|
  {
    (if s.cur.Some? && i == s.index then [s.cur.value] else []) + s.queues[i]
  }

  /** Nobody waits and nobody runs, or the earliest arrival of the first queue in which somebody
      waits runs and that queue loses just that one; the others lose and gain nobody. */
  ghost predicate Picks(s: Sched, t: Sched) {
    && |t.queues| == |s.queues|
    && if t.cur.None? then
         (forall i: nat | i < |s.queues| :: Waiting(s, i) == [] && t.queues[i] == []) && t.index == s.index
       else
         && t.level < |s.queues|
         && (forall i: nat | i < t.level :: Waiting(s, i) == [])
         && Waiting(s, t.level) == t.queues[t.level] + [t.cur.value]
         && (forall i: nat | i < |s.queues| && i != t.level :: t.queues[i] == Waiting(s, i))
         && t.index == if t.level == |s.queues| - 1 then s.index else t.level + 1
  }

  lemma RequeuedWaits(s: Sched)
    requires WellFormed(s)
    ensures |Requeued(s)| == |s.queues| && forall i: nat | i < |s.queues| :: Requeued(s)[i] == Waiting(s, i)
  {
    forall i: nat | i < |s.queues|
      ensures Requeued(s)[i] == Waiting(s, i)
    {
      assert s.cur.None? ==> [] + s.queues[i] == s.queues[i];
      assert i != s.index ==> [] + s.queues[i] == s.queues[i];
    }
  }

  lemma StepPicks(s: Sched)
    requires WellFormed(s)
    ensures Picks(s, Step(s))
  {
    hide Requeued, Waiting;
    RequeuedWaits(s);
    var queues := Requeued(s);
    var j := Selected(queues, 0);
    if j != -1 {
      assert queues[j] == queues[j][..|queues[j]| - 1] + [Tail(queues[j])];
    }
  }

  /** Round robin is the same on its one queue, whatever the index. */
  lemma RoundRobinPicks(s: Sched)
    requires Levels(s) == 1
    ensures RoundRobin(s).index == s.index && Picks(s.(index := 0), RoundRobin(s).(index := 0))
  {
    StepPicks(s.(index := 0, level := 0));
  }

  /** With one level the two schedulers agree. */
  lemma RoundRobinIsOneLevel(s: Sched)
    requires WellFormed(s) && Levels(s) == 1
    ensures RoundRobin(s) == Step(s)
  {
  }

  // ---------------------------------------------------------------- where a process re-enters

  function Below(level: nat, levels: nat): nat { if level + 1 < levels then level + 1 else level }

  /** The index is that of the queue below the one the running environment came from. */
  predicate Fresh(s: Sched) {
    s.cur.Some? ==> s.index == Below(s.level, Levels(s))
  }

  /** A preempted environment leaves the index fresh, whatever it was before. */
  lemma PreemptionIsFresh(s: Sched)
    requires WellFormed(s) && s.cur.Some?
    ensures Fresh(Step(s))
  {
    assert Requeued(s)[s.index] != [];
  }

  /** Without a running environment (its last one has exited) the index goes stale exactly
      when the next one comes from the bottom queue and the index names a higher one. */
  lemma StaleAfterExit(s: Sched)
    requires WellFormed(s) && s.cur.None?
    ensures Fresh(Step(s)) <==> !(Selected(s.queues, 0) == Levels(s) - 1 && s.index != Levels(s) - 1)
  {
  }

  /** An arrival enters the top queue. */
  function Arrived(s: Sched, e: Env): Sched
    requires WellFormed(s)
  {
    s.(queues := Enqueue(s.queues, 0, e))
  }

  /** The running environment has exited; the index is not touched. */
  function Exited(s: Sched): Sched { s.(cur := None) }

  /** A history that gets there, with three levels: e sinks to the bottom, f arrives, is picked
      from the top queue and exits, and e, picked from the bottom, then re-enters one level
      higher than it came from. */
  lemma StaleHistory(e: Env, f: Env)
    ensures var start := Sched([[e], [], []], 0, None, 0);
            var sunk := Step(Step(Step(start)));
            var stale := Step(Exited(Step(Arrived(sunk, f))));
            && sunk.cur == Some(e) && sunk.level == 2 && Fresh(sunk)
            && Step(Arrived(sunk, f)).cur == Some(f) && Fresh(Step(Arrived(sunk, f)))
            && stale.cur == Some(e) && stale.level == 2 && stale.index == 1 && !Fresh(stale)
            && Step(stale).cur == Some(e) && Step(stale).level == 1
  {
    hide Step, Selected, Dequeue, Requeued, Arrived, Exited;
    TakesOne(Sched([[e], [], []], 0, None, 0), 0, e);
    TakesOne(Sched([[], [], []], 1, Some(e), 0), 1, e);
    TakesOne(Sched([[], [], []], 2, Some(e), 1), 2, e);
    var sunk := Sched([[], [], []], 2, Some(e), 2);
    TakesNewcomer(sunk, e, f);
    ExitLeaves(Sched([[], [], [e]], 1, Some(f), 0));
    TakesOne(Sched([[], [], [e]], 1, None, 0), 2, e);
    TakesOne(Sched([[], [], []], 1, Some(e), 2), 1, e);
  }

  lemma ExitLeaves(s: Sched)
    ensures Exited(s) == s.(cur := None)
  {
  }

  /** An arrival is picked before the process at the bottom. */
  lemma TakesNewcomer(s: Sched, e: Env, f: Env)
    requires s == Sched([[], [], []], 2, Some(e), 2)
    ensures Step(Arrived(s, f)) == Sched([[], [], [e]], 1, Some(f), 0)
  {
    var crowd := Arrived(s, f);
    assert [f] + s.queues[0] == [f] && [e] + s.queues[2] == [e] && [f][..0] == [];
    assert crowd.queues == [[f], [], []];
    assert Requeued(crowd) == [[f], [], [e]];
    assert Selected(Requeued(crowd), 0) == 0;
    assert Dequeue(Requeued(crowd), 0) == [[], [], [e]];
  }

  /** With just one process, in queue i once it is put back, that one runs next. */
  lemma TakesOne(s: Sched, i: nat, e: Env)
    requires WellFormed(s) && Levels(s) == 3 && i < 3
    requires if s.cur == Some(e) then i == s.index && s.queues == [[], [], []]
             else s.cur == None && s.queues == [[], [], []][i := [e]]
    ensures Step(s) == Sched([[], [], []], if i < 2 then i + 1 else s.index, Some(e), i)
  {
    var queues := Requeued(s);
    assert s.cur == Some(e) ==> [e] + s.queues[i] == [e];
    assert queues == [[], [], []][i := [e]];
    assert queues[i] == [e] && forall j | 0 <= j < 3 && j != i :: queues[j] == [];
    assert Selected(queues, 0) == i;
    assert [e][..0] == [];
    assert Dequeue(queues, i) == [[], [], []];
  }

  /** sched_init_MLFQ with a number of levels: the queues are empty and the index is kept. */
  function Reinitialised(s: Sched, levels: nat): Sched {
    Sched(seq<seq<Env>>(levels, _ => []), s.index, None, 0)
  }

  /** A history after which the index names no queue: a process sinks through three levels, and
      the queues are initialised again with two. */
  lemma ReinitialisedHistory(e: Env)
    ensures var sunk := Step(Step(Step(Sched([[e], [], []], 0, None, 0))));
            sunk.index == 2 && WellFormed(Reinitialised(sunk, 3)) && !WellFormed(Reinitialised(sunk, 2))
  {
    TakesOne(Sched([[e], [], []], 0, None, 0), 0, e);
    TakesOne(Sched([[], [], []], 1, Some(e), 0), 1, e);
    TakesOne(Sched([[], [], []], 2, Some(e), 1), 2, e);
  }

  // ---------------------------------------------------------------- conservation

  ghost function Total(queues: seq<seq<Env>>): multiset<Env> {
    if queues == [] then multiset{} else multiset(queues[0]) + Total(queues[1..])
  }

  ghost function Everyone(s: Sched): multiset<Env> {
    Total(s.queues) + match s.cur case None => multiset{} case Some(e) => multiset{e}
  }

  lemma {:induction false} TotalUpdate(queues: seq<seq<Env>>, i: nat, q: seq<Env>)
    requires i < |queues|
    ensures Total(queues[i := q]) + multiset(queues[i]) == Total(queues) + multiset(q)
  {
    if i == 0 {
      assert queues[0 := q][1..] == queues[1..];
    } else {
      TotalUpdate(queues[1..], i - 1, q);
      assert queues[i := q][1..] == queues[1..][i - 1 := q] && queues[i := q][0] == queues[0];
      assert queues[1..][i - 1] == queues[i];
      Regroup(multiset(queues[0]), Total(queues[1..][i - 1 := q]), multiset(queues[i]),
              Total(queues[1..]), multiset(q));
    }
  }

  lemma Regroup(a: multiset<Env>, b: multiset<Env>, c: multiset<Env>, d: multiset<Env>, e: multiset<Env>)
    requires b + c == d + e
    ensures a + b + c == a + d + e
  {
    assert a + b + c == a + (b + c) && a + d + e == a + (d + e);
  }

  lemma TailSplits(q: seq<Env>)
    requires q != []
    ensures multiset(q) == multiset(q[..|q| - 1]) + multiset{Tail(q)}
  {
    assert q == q[..|q| - 1] + [Tail(q)];
  }

  /** No step loses or duplicates an environment. */
  lemma StepConserves(s: Sched)
    requires WellFormed(s)
    ensures Everyone(Step(s)) == Everyone(s)
  {
    var queues := Requeued(s);
    if s.cur.Some? {
      EnqueueTotal(s.queues, s.index, s.cur.value);
    }
    var j := Selected(queues, 0);
    if j != -1 {
      DequeueTotal(queues, j);
    }
  }

  lemma EnqueueTotal(queues: seq<seq<Env>>, i: nat, e: Env)
    requires i < |queues|
    ensures Total(Enqueue(queues, i, e)) == Total(queues) + multiset{e}
  {
    var q := [e] + queues[i];
    TotalUpdate(queues, i, q);
    assert multiset(q) == multiset{e} + multiset(queues[i]);
    assert Total(queues[i := q]) + multiset(queues[i]) - multiset(queues[i]) == Total(queues[i := q]);
  }

  lemma DequeueTotal(queues: seq<seq<Env>>, i: nat)
    requires i < |queues| && queues[i] != []
    ensures Total(Dequeue(queues, i)) + multiset{Tail(queues[i])} == Total(queues)
  {
    var q := queues[i][..|queues[i]| - 1];
    TailSplits(queues[i]);
    TotalUpdate(queues, i, q);
    var t := multiset{Tail(queues[i])};
    assert Total(queues[i := q]) + t + multiset(q) == Total(queues) + multiset(q);
    assert Total(queues[i := q]) + t + multiset(q) - multiset(q) == Total(queues[i := q]) + t;
  }

  // ---------------------------------------------------------------- first in, first out

  /** e has waited in queue i for longer than f: newcomers are nearer the head. */
  ghost predicate Before(s: Sched, i: nat, e: Env, f: Env) {
    && e != f && i < |s.queues| && s.cur != Some(f)
    && exists a, b | 0 <= a < b < |s.queues[i]| :: s.queues[i][a] == f && s.queues[i][b] == e
  }

  /** One thing that happens to the queues: a scheduling decision, an arrival of somebody new, or
      the exit of the running process. */
  ghost predicate Moves(s: Sched, t: Sched) {
    && WellFormed(s)
    && (t == Step(s) || t == Exited(s) || exists e :: e !in Everyone(s) && t == Arrived(s, e))
  }

  /** f is in one place only. */
  ghost predicate Once(s: Sched, f: Env) { Everyone(s)[f] <= 1 }

  lemma {:induction false} InQueue(queues: seq<seq<Env>>, i: nat, f: Env)
    requires i < |queues|
    ensures multiset(queues[i])[f] <= Total(queues)[f]
  {
    if i == 0 {
    } else {
      InQueue(queues[1..], i - 1, f);
    }
  }

  lemma {:induction false} InTwoQueues(queues: seq<seq<Env>>, i: nat, j: nat, f: Env)
    requires i < j < |queues|
    ensures multiset(queues[i])[f] + multiset(queues[j])[f] <= Total(queues)[f]
  {
    if i == 0 {
      InQueue(queues[1..], j - 1, f);
    } else {
      InTwoQueues(queues[1..], i - 1, j - 1, f);
    }
  }

  /** Somebody who is in queue i once is nowhere else. */
  lemma OnlyThere(s: Sched, i: nat, a: nat, f: Env)
    requires Once(s, f) && i < |s.queues| && a < |s.queues[i]| && s.queues[i][a] == f
    ensures s.cur != Some(f)
    ensures forall j: nat | j < |s.queues| && j != i :: f !in s.queues[j]
    ensures forall b: nat | b < |s.queues[i]| && b != a :: s.queues[i][b] != f
  {
    var q := s.queues[i];
    InQueue(s.queues, i, f);
    assert q == q[..a] + [f] + q[a + 1..];
    assert multiset(q) == multiset(q[..a]) + multiset{f} + multiset(q[a + 1..]);
    forall j: nat | j < |s.queues| && j != i
      ensures f !in s.queues[j]
    {
      if i < j { InTwoQueues(s.queues, i, j, f); } else { InTwoQueues(s.queues, j, i, f); }
    }
    forall b: nat | b < |q| && b != a
      ensures q[b] != f
    {
      if b < a { assert q[b] == q[..a][b]; } else { assert q[b] == q[a + 1..][b - a - 1]; }
    }
  }

  /** Until e runs, f does not, and e stays before f. */
  lemma PickKeepsOrder(s: Sched, t: Sched, i: nat, e: Env, f: Env)
    requires WellFormed(s) && Picks(s, t) && Before(s, i, e, f) && Once(s, f)
    ensures t.cur == Some(e) || Before(t, i, e, f)
  {
    var a, b :| 0 <= a < b < |s.queues[i]| && s.queues[i][a] == f && s.queues[i][b] == e;
    OnlyThere(s, i, a, f);
    var w := Waiting(s, i);
    var shift := |w| - |s.queues[i]|;
    assert w[a + shift] == f && w[b + shift] == e;
    if t.cur.Some? {
      if t.level == i {
        if b + shift != |w| - 1 {
          assert t.queues[i][a + shift] == f && t.queues[i][b + shift] == e;
          OnlyLastPicked(w, t.queues[i], t.cur.value, a + shift, f);
        }
      } else {
        assert t.queues[i] == w;
        var v := Waiting(s, t.level);
        assert v[|v| - 1] == t.cur.value;
        assert f !in v;
      }
    }
  }

  lemma OnlyLastPicked(w: seq<Env>, q: seq<Env>, last: Env, a: nat, f: Env)
    requires w == q + [last] && a < |q| && forall b: nat | b < |w| && b != a :: w[b] != f
    ensures last != f
  {
    assert w[|q|] == last;
  }

  lemma MoveKeepsOrder(s: Sched, t: Sched, i: nat, e: Env, f: Env)
    requires Moves(s, t) && Before(s, i, e, f) && Once(s, f)
    ensures WellFormed(t) && Once(t, f) && (t.cur == Some(e) || Before(t, i, e, f))
  {
    hide Step, Picks, Before, Everyone, Arrived, Exited;
    if t == Step(s) {
      StepPicks(s);
      StepConserves(s);
      PickKeepsOrder(s, t, i, e, f);
    } else if t == Exited(s) {
      ExitKeepsOrder(s, i, e, f);
    } else {
      var g :| g !in Everyone(s) && t == Arrived(s, g);
      ArrivalKeepsOrder(s, g, i, e, f);
    }
  }

  lemma ExitKeepsOrder(s: Sched, i: nat, e: Env, f: Env)
    requires WellFormed(s) && Before(s, i, e, f) && Once(s, f)
    ensures WellFormed(Exited(s)) && Before(Exited(s), i, e, f) && Once(Exited(s), f)
  {
    var a, b :| 0 <= a < b < |s.queues[i]| && s.queues[i][a] == f && s.queues[i][b] == e;
    assert Exited(s).queues[i][a] == f && Exited(s).queues[i][b] == e;
  }

  lemma ArrivalKeepsOrder(s: Sched, g: Env, i: nat, e: Env, f: Env)
    requires WellFormed(s) && Before(s, i, e, f) && Once(s, f) && g !in Everyone(s)
    ensures WellFormed(Arrived(s, g)) && Before(Arrived(s, g), i, e, f) && Once(Arrived(s, g), f)
  {
    var a, b :| 0 <= a < b < |s.queues[i]| && s.queues[i][a] == f && s.queues[i][b] == e;
    var t := Arrived(s, g);
    InQueue(s.queues, i, f);
    assert f in multiset(s.queues[i]);
    EnqueueTotal(s.queues, 0, g);
    var shift := |t.queues[i]| - |s.queues[i]|;
    assert t.queues[i][a + shift] == f && t.queues[i][b + shift] == e;
  }

  lemma BeforeApart(s: Sched, i: nat, e: Env, f: Env)
    requires Before(s, i, e, f)
    ensures e != f && s.cur != Some(f)
  {
  }

  /** First in, first out, at every level and whatever arrives and exits meanwhile: of two
      processes that wait in one queue the later arrival does not run before the earlier one
      has. */
  lemma {:induction false} FirstInFirstOut(states: seq<Sched>, i: nat, e: Env, f: Env, k: nat)
    requires 0 < k < |states| && forall j | 0 <= j < k :: Moves(states[j], states[j + 1])
    requires Before(states[0], i, e, f) && Once(states[0], f) && states[k].cur == Some(f)
    ensures exists j :: 0 < j < k && states[j].cur == Some(e)
  {
    assert Moves(states[0], states[0 + 1]);
    MoveKeepsOrder(states[0], states[1], i, e, f);
    BeforeApart(states[0], i, e, f);
    hide Moves, Before, Once;
    if states[1].cur == Some(e) {
      assert 1 < k;
    } else {
      BeforeApart(states[1], i, e, f);
      var rest := states[1..];
      forall j | 0 <= j < k - 1
        ensures Moves(rest[j], rest[j + 1])
      {
        assert Moves(states[j + 1], states[j + 1 + 1]);
      }
      assert rest[k - 1] == states[k];
      FirstInFirstOut(rest, i, e, f, k - 1);
      var j :| 0 < j < k - 1 && rest[j].cur == Some(e);
      assert states[j + 1].cur == Some(e);
    }
  }

  // ---------------------------------------------------------------- sinking to the bottom

  /** How many levels the queued environments are above the bottom, all together. */
  function Weight(queues: seq<seq<Env>>): nat {
    if queues == [] then 0 else |queues[0]| * (|queues| - 1) + Weight(queues[1..])
  }

  function Potential(s: Sched): nat
    requires WellFormed(s)
  {
    Weight(s.queues) + if s.cur.Some? then Levels(s) - 1 - s.index else 0
  }

  lemma {:induction false} WeightUpdate(queues: seq<seq<Env>>, i: nat, q: seq<Env>)
    requires i < |queues|
    ensures Weight(queues[i := q]) + |queues[i]| * (|queues| - 1 - i) == Weight(queues) + |q| * (|queues| - 1 - i)
  {
    if i == 0 {
      assert queues[0 := q][1..] == queues[1..];
    } else {
      WeightUpdate(queues[1..], i - 1, q);
      assert queues[i := q][1..] == queues[1..][i - 1 := q];
    }
  }

  lemma OneMore(n: nat, d: nat)
    ensures (n + 1) * d == n * d + d
  {
  }

  /** One member more or less changes the weight by its distance from the bottom. */
  lemma WeightOfOne(queues: seq<seq<Env>>, i: nat, q: seq<Env>)
    requires i < |queues| && |q| == |queues[i]| + 1
    ensures Weight(queues[i := q]) == Weight(queues) + (|queues| - 1 - i)
  {
    WeightUpdate(queues, i, q);
    OneMore(|queues[i]|, |queues| - 1 - i);
  }

  lemma {:induction false} WeightZero(queues: seq<seq<Env>>)
    ensures Weight(queues) == 0 <==> forall i | 0 <= i < |queues| - 1 :: queues[i] == []
  {
    if 1 < |queues| {
      WeightZero(queues[1..]);
      EmptyAbove(queues);
      if queues[0] != [] { ProductPositive(|queues[0]|, |queues| - 1); }
    }
  }

  lemma EmptyAbove(queues: seq<seq<Env>>)
    requires 1 < |queues|
    ensures (forall i | 0 <= i < |queues| - 1 :: queues[i] == [])
       <==> queues[0] == [] && forall i | 0 <= i < |queues[1..]| - 1 :: queues[1..][i] == []
  {
    var rest := queues[1..];
    assert forall i | 0 <= i < |rest| :: rest[i] == queues[i + 1];
    assert forall i | 1 <= i < |queues| :: queues[i] == rest[i - 1];
  }

  /** Picking from queue j takes one level off the potential, unless j is the bottom. */
  lemma PickWeight(queues: seq<seq<Env>>, j: nat)
    requires j < |queues| && queues[j] != []
    ensures Weight(Dequeue(queues, j)) == Weight(queues) - (|queues| - 1 - j)
  {
    var d := Dequeue(queues, j);
    WeightOfOne(d, j, queues[j]);
    assert d[j := queues[j]] == queues;
  }

  /** Every preemption lowers the potential by one until it is zero. */
  lemma StepSinks(s: Sched)
    requires WellFormed(s) && s.cur.Some?
    ensures Step(s).cur.Some?
    ensures Potential(Step(s)) == if Potential(s) == 0 then 0 else Potential(s) - 1
  {
    var queues := Requeued(s);
    WeightOfOne(s.queues, s.index, [s.cur.value] + s.queues[s.index]);
    assert Weight(queues) == Potential(s);
    assert queues[s.index] != [];
    var j := Selected(queues, 0);
    PickWeight(queues, j);
    WeightZero(queues);
  }

  // ---------------------------------------------------------------- runs

  function Runs(s: Sched, k: nat): (t: Sched)
    requires WellFormed(s)
    ensures WellFormed(t) && Levels(t) == Levels(s)
    decreases k
  {
    if k == 0 then s else Step(Runs(s, k - 1))
  }

  lemma {:induction false} RunsAdd(s: Sched, a: nat, b: nat)
    requires WellFormed(s)
    ensures Runs(Runs(s, a), b) == Runs(s, a + b)
    decreases b
  {
    hide Step;
    if b == 0 {
    } else {
      RunsAdd(s, a, b - 1);
    }
  }

  /** A closed system at its start: the processes wait in the top queue, none has run. */
  ghost predicate Started(s: Sched, processes: seq<Env>) {
    && WellFormed(s) && processes != [] && Distinct(processes)
    && s.cur.None? && s.index == 0 && s.queues[0] == processes
    && forall i | 0 < i < Levels(s) :: s.queues[i] == []
  }

  lemma StartedWeight(queues: seq<seq<Env>>)
    requires queues != [] && forall i | 0 < i < |queues| :: queues[i] == []
    ensures Weight(queues) == |queues[0]| * (|queues| - 1)
    ensures Total(queues) == multiset(queues[0])
  {
    EmptyQueues(queues[1..]);
  }

  lemma {:induction false} EmptyQueues(queues: seq<seq<Env>>)
    requires forall i | 0 <= i < |queues| :: queues[i] == []
    ensures Weight(queues) == 0 && Total(queues) == multiset{}
  {
    if queues == [] {
    } else {
      EmptyQueues(queues[1..]);
    }
  }

  /** After k steps, the first of which is the first dispatch and the others preemptions, the
      processes are k levels closer to the bottom in all, and nobody is missing. */
  lemma {:induction false} RunsSink(s: Sched, processes: seq<Env>, k: nat)
    requires Started(s, processes)
    ensures Everyone(Runs(s, k)) == multiset(processes)
    ensures 0 < k ==> Runs(s, k).cur.Some? && Fresh(Runs(s, k))
    ensures Potential(Runs(s, k)) == if k < Potential(s) then Potential(s) - k else 0
    decreases k
  {
    hide Step, Levels, Potential, Everyone, Fresh, Runs;
    StartedEveryone(s, processes);
    RunsUnfold(s, k);
    RunsUnfold(s, 0);
    if k == 0 {
    } else {
      var t := Runs(s, k - 1);
      RunsSink(s, processes, k - 1);
      StepConserves(t);
      if k == 1 {
        FirstDispatch(s, processes);
      } else {
        StepSinks(t);
        PreemptionIsFresh(t);
      }
    }
  }

  lemma RunsUnfold(s: Sched, k: nat)
    requires WellFormed(s)
    ensures Runs(s, k) == if k == 0 then s else Step(Runs(s, k - 1))
  {
  }

  lemma StartedEveryone(s: Sched, processes: seq<Env>)
    requires Started(s, processes)
    ensures Everyone(s) == multiset(processes)
  {
    StartedWeight(s.queues);
  }

  /** At the start every process has all levels but one before it. */
  lemma StartedPotential(s: Sched, processes: seq<Env>)
    requires Started(s, processes)
    ensures Potential(s) == |processes| * (Levels(s) - 1)
  {
    StartedWeight(s.queues);
  }

  lemma FirstDispatch(s: Sched, processes: seq<Env>)
    requires Started(s, processes)
    ensures Step(s).cur.Some? && Fresh(Step(s))
    ensures Potential(Step(s)) == if Potential(s) == 0 then 0 else Potential(s) - 1
  {
    StartedWeight(s.queues);
    PickWeight(s.queues, 0);
    if 1 < Levels(s) {
      ProductPositive(|processes|, Levels(s) - 1);
    }
  }

  lemma ProductPositive(a: nat, b: nat)
    requires 0 < a && 0 < b
    ensures b <= a * b
  {
  }

  /** Everybody is at the bottom: the running process will re-enter the last queue and all
      others wait in it. */
  ghost predicate AtBottom(s: Sched) {
    && WellFormed(s) && s.cur.Some? && s.index == Levels(s) - 1
    && forall i | 0 <= i < Levels(s) - 1 :: s.queues[i] == []
  }

  lemma SunkIsBottom(s: Sched)
    requires WellFormed(s) && s.cur.Some? && Potential(s) == 0
    ensures AtBottom(s)
  {
    WeightZero(s.queues);
  }

  /** All processes are at the bottom within m * (L - 1) steps. */
  lemma SunkInTime(s: Sched, processes: seq<Env>, k: nat)
    requires Started(s, processes) && 0 < k && |processes| * (Levels(s) - 1) <= k
    ensures AtBottom(Runs(s, k))
  {
    StartedPotential(s, processes);
    RunsSink(s, processes, k);
    SunkIsBottom(Runs(s, k));
  }

  // ---------------------------------------------------------------- rotation at the bottom

  /** The running process, then the bottom queue from its head: who runs next is last. */
  function Ring(s: Sched): seq<Env>
    requires WellFormed(s) && s.cur.Some?
  {
    [s.cur.value] + s.queues[Levels(s) - 1]
  }

  /** At the bottom a step rotates the ring by one. */
  lemma BottomRotates(s: Sched)
    requires AtBottom(s)
    ensures AtBottom(Step(s))
    ensures Ring(Step(s)) == [Tail(Ring(s))] + Ring(s)[..|Ring(s)| - 1]
  {
    var queues, bottom := Requeued(s), Levels(s) - 1;
    assert queues[bottom] == Ring(s);
    assert Selected(queues, 0) == bottom;
  }

  /** The ring turned k - 1 places, turned once more. */
  lemma TurnOnce(ring: seq<Env>, k: nat)
    requires 0 < k <= |ring|
    ensures var turned := ring[|ring| - (k - 1)..] + ring[..|ring| - (k - 1)];
            [Tail(turned)] + turned[..|turned| - 1] == ring[|ring| - k..] + ring[..|ring| - k]
  {
  }

  lemma {:induction false} RingAfter(s: Sched, k: nat)
    requires AtBottom(s) && k <= |Ring(s)|
    ensures AtBottom(Runs(s, k))
    ensures Ring(Runs(s, k)) == Ring(s)[|Ring(s)| - k..] + Ring(s)[..|Ring(s)| - k]
    decreases k
  {
    hide Step, AtBottom;
    BottomRuns(s);
    if k == 0 {
    } else {
      RingAfter(s, k - 1);
      BottomRuns(Runs(s, k - 1));
      BottomRotates(Runs(s, k - 1));
      BottomRuns(Runs(s, k));
      hide Ring;
      TurnOnce(Ring(s), k);
    }
  }

  lemma BottomRuns(s: Sched)
    requires AtBottom(s)
    ensures WellFormed(s) && s.cur.Some? && 0 < |Ring(s)|
  {
  }

  /** After as many steps as there are processes the ring is back where it was, and every
      process has run once. */
  lemma EveryoneRuns(s: Sched, e: Env)
    requires AtBottom(s) && e in Ring(s)
    ensures AtBottom(Runs(s, |Ring(s)|)) && Ring(Runs(s, |Ring(s)|)) == Ring(s)
    ensures exists k: nat :: 0 < k <= |Ring(s)| && Runs(s, k).cur == Some(e) && (s.cur != Some(e) ==> k < |Ring(s)|)
  {
    RingAfter(s, |Ring(s)|);
    var i :| 0 <= i < |Ring(s)| && Ring(s)[i] == e;
    var k := |Ring(s)| - i;
    RingAfter(s, k);
    assert Ring(Runs(s, k))[0] == e;
  }

  lemma RingIsEveryone(s: Sched)
    requires AtBottom(s)
    ensures multiset(Ring(s)) == Everyone(s)
  {
    OnlyLast(s.queues);
  }

  lemma {:induction false} OnlyLast(queues: seq<seq<Env>>)
    requires queues != [] && forall i | 0 <= i < |queues| - 1 :: queues[i] == []
    ensures Total(queues) == multiset(queues[|queues| - 1])
  {
    if 1 < |queues| {
      OnlyLast(queues[1..]);
    } else {
      assert Total(queues[1..]) == multiset{};
    }
  }

  /** From any state with a running process, wherever the others wait and whether the index is
      fresh or stale, preemptions lose nobody and lower the potential to zero. */
  lemma {:induction false} SinksFromAnywhere(s: Sched, k: nat)
    requires WellFormed(s) && s.cur.Some?
    ensures Runs(s, k).cur.Some? && Everyone(Runs(s, k)) == Everyone(s)
    ensures Potential(Runs(s, k)) == if k < Potential(s) then Potential(s) - k else 0
    decreases k
  {
    hide Step, Levels, Potential, Everyone, Runs;
    RunsUnfold(s, k);
    if k == 0 {
    } else {
      SinksFromAnywhere(s, k - 1);
      StepConserves(Runs(s, k - 1));
      StepSinks(Runs(s, k - 1));
    }
  }

  /** No starvation from any such state: everybody runs within the potential plus one turn.  A
      stale index lengthens the wait by the levels it gives back and no more. */
  lemma NoStarvationFromAnywhere(s: Sched, e: Env)
    requires WellFormed(s) && s.cur.Some? && e in Everyone(s)
    ensures exists k: nat :: 0 < k <= Potential(s) + |Everyone(s)| && Runs(s, k).cur == Some(e)
  {
    hide Step, Runs, Potential, Everyone, AtBottom;
    var from := Potential(s);
    var t := Runs(s, from);
    SinksFromAnywhere(s, from);
    SunkIsBottom(t);
    BottomRuns(t);
    RingIsEveryone(t);
    assert e in multiset(Ring(t)) && |multiset(Ring(t))| == |Ring(t)|;
    EveryoneRuns(t, e);
    var k: nat :| 0 < k <= |Ring(t)| && Runs(t, k).cur == Some(e);
    RunsAdd(s, from, k);
    assert Runs(s, from + k).cur == Some(e);
  }

  /** No starvation in a closed system: from any moment on, every process runs within
      m * (L - 1) + m further steps. */
  lemma NoStarvation(s: Sched, processes: seq<Env>, now: nat, e: Env)
    requires Started(s, processes) && e in processes
    ensures exists k: nat :: now < k <= now + |processes| * (Levels(s) - 1) + |processes| && Runs(s, k).cur == Some(e)
  {
    hide Runs, Step, Potential, Everyone, AtBottom, Fresh, Weight;
    var sunk := |processes| * (Levels(s) - 1);
    ProductNatural(|processes|, Levels(s) - 1);
    var from := if now < sunk then sunk else if now == 0 then 1 else now;
    SunkInTime(s, processes, from);
    RunsSink(s, processes, from);
    BottomRuns(Runs(s, from));
    RingIsEveryone(Runs(s, from));
    var ring := Ring(Runs(s, from));
    assert e in multiset(processes);
    assert e in multiset(ring);
    assert |ring| == |multiset(ring)| == |multiset(processes)| == |processes|;
    EveryoneRuns(Runs(s, from), e);
    if now < from && Runs(s, from).cur == Some(e) {
      assert now < from <= now + sunk + |processes|;
    } else {
      var k: nat :| 0 < k <= |ring| && Runs(Runs(s, from), k).cur == Some(e)
                    && (Runs(s, from).cur != Some(e) ==> k < |ring|);
      RunsAdd(s, from, k);
      assert Runs(s, from + k).cur == Some(e);
    }
  }

  lemma ProductNatural(a: nat, b: nat)
    ensures 0 <= a * b
  {
  }

  // ---------------------------------------------------------------- the code

  class ReadyQueues {
    const queues: array<seq<Env>>     // env_ready_queues
    const quantums: array<nat>
    const mlfq: bool                  // the scheduling method
    var indexToEnqueue: nat
    var current: Option<Env>          // curenv
    var quantum: nat                  // what the clock was last set to
    ghost var level: nat

    ghost function S(): Sched
      reads this, queues
    {
      Sched(queues[..], indexToEnqueue, current, level)
    }

    ghost predicate Valid()
      reads this, queues
    {
      && 0 < queues.Length == quantums.Length && (current.Some? ==> level < queues.Length)
      && if mlfq then indexToEnqueue < queues.Length else queues.Length == 1
    }

    /** sched_init_MLFQ or, with one quantum, sched_init_RR.  The index is a global that neither
        of them sets: after a change to fewer levels it can name a queue that is not there. */
    constructor (quantumOfEachLevel: seq<nat>, mlfq: bool, index: nat)
      requires quantumOfEachLevel != [] && (!mlfq ==> |quantumOfEachLevel| == 1)
      ensures Valid() <==> mlfq ==> index < |quantumOfEachLevel|
      ensures current == None && indexToEnqueue == index && quantum == quantumOfEachLevel[0]
      ensures queues[..] == seq(|quantumOfEachLevel|, _ => []) && quantums[..] == quantumOfEachLevel
      ensures S() == Reinitialised(Sched([], index, None, 0), |quantumOfEachLevel|)
      ensures fresh(queues) && fresh(quantums)
    {
      var n := |quantumOfEachLevel|;
      queues := new seq<Env>[n](_ => []);
      var q := new nat[n](i requires 0 <= i < n => quantumOfEachLevel[i]);
      quantums := q;
      this.mlfq := mlfq;
      indexToEnqueue, current, quantum, level := index, None, quantumOfEachLevel[0], 0;
      new;
      assert queues[..] == seq(n, _ => []);
      assert quantums[..] == quantumOfEachLevel;
    }

    /** A newcomer is the head of its queue. */
    method Enter(i: nat, e: Env)
      requires i < queues.Length
      modifies queues
      ensures queues[i] == [e] + old(queues[i])
      ensures forall j | 0 <= j < queues.Length && j != i :: queues[j] == old(queues[j])
      ensures queues[..] == Enqueue(old(queues[..]), i, e)
    {
      queues[i] := [e] + queues[i];
    }

    /** The one that has waited longest is the last. */
    method Leave(i: nat) returns (r: Option<Env>)
      requires i < queues.Length
      modifies queues
      ensures r == None ==> old(queues[i]) == [] == queues[i]
      ensures r.Some? ==> old(queues[i]) == queues[i] + [r.value]
      ensures forall j | 0 <= j < queues.Length && j != i :: queues[j] == old(queues[j])
      ensures if old(queues[i]) == [] then r == None && queues[..] == old(queues[..])
              else r == Some(Tail(old(queues[i]))) && queues[..] == Dequeue(old(queues[..]), i)
    {
      if queues[i] == [] { return None; }
      r := Some(queues[i][|queues[i]| - 1]);
      queues[i] := queues[i][..|queues[i]| - 1];
    }

    method GetSelectedLevel() returns (j: int)
      ensures j == Selected(queues[..], 0)
    {
      for i := 0 to queues.Length
        invariant Selected(queues[..], i) == Selected(queues[..], 0)
      {
        if |queues[i]| != 0 { return i; }
      }
      return -1;
    }

    method UpdateIndexToEnqueue(selectedLevel: nat)
      modifies this`indexToEnqueue
      ensures indexToEnqueue == if selectedLevel + 1 != queues.Length then selectedLevel + 1 else old(indexToEnqueue)
    {
      if selectedLevel + 1 != queues.Length {
        indexToEnqueue := selectedLevel + 1;
      }
    }

    /** Puts the running environment back and takes the next one out; who runs is left to the
        caller. */
    method FosSchedulerMLFQ() returns (next: Option<Env>)
      requires Valid() && mlfq
      modifies this`indexToEnqueue, this`quantum, this`level, queues
      ensures var t := Step(old(S()));
              && next == t.cur && queues[..] == t.queues && indexToEnqueue == t.index && level == t.level
              && (next.Some? ==> quantum == quantums[t.level])
      ensures Picks(old(S()), Sched(queues[..], indexToEnqueue, next, level))
      ensures next.None? ==> quantum == old(quantum)
    {
      StepPicks(S());
      if current.Some? {
        Enter(indexToEnqueue, current.value);
      }
      assert queues[..] == Requeued(old(S()));
      var selectedLevel := GetSelectedLevel();
      if selectedLevel != -1 {
        next := Leave(selectedLevel);
        quantum := quantums[selectedLevel];
        UpdateIndexToEnqueue(selectedLevel);
        level := selectedLevel;
        return;
      }
      return None;
    }

    /** One scheduling decision: under either method the next environment becomes the running
        one, and the clock gets the quantum of the queue it came from. */
    method FosScheduler()
      requires Valid()
      modifies this`indexToEnqueue, this`current, this`quantum, this`level, queues
      ensures Valid() && S() == if mlfq then Step(old(S())) else RoundRobin(old(S()))
      ensures mlfq ==> Picks(old(S()), S())
      ensures !mlfq ==> indexToEnqueue == old(indexToEnqueue)
      ensures !mlfq ==> Picks(old(S()).(index := 0), S().(index := 0))
      ensures current.Some? ==> quantum == quantums[level]
      ensures current.None? ==> quantum == if mlfq then old(quantum) else quantums[0]
    {
      if !mlfq { RoundRobinPicks(S()); }
      var next: Option<Env>;
      if !mlfq {
        if current.Some? {
          Enter(0, current.value);
        }
        next := Leave(0);
        quantum := quantums[0];
        if next.Some? { level := 0; }
      } else {
        next := FosSchedulerMLFQ();
      }
      current := next;
    }

    /** A new arrival enters the top queue. */
    method SchedInsertReady(e: Env)
      requires Valid()
      modifies queues
      ensures Valid() && S() == old(S()).(queues := Enqueue(old(queues[..]), 0, e))
      ensures queues[0] == [e] + old(queues[0])
      ensures forall i | 0 < i < queues.Length :: queues[i] == old(queues[i])
    {
      Enter(0, e);
    }
  }
}
