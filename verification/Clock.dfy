/** The modified clock of trap.c as a function of the used and modified bits of a full
    working set, slot by slot, and the specification it meets. */
module Clock {

  datatype Bits = Bits(used: bool, modified: bool)

  // ---------------------------------------------------------------- what is wanted

  /** Preference order: (0,0), then (0,1), then (1,0), then (1,1). */
  function Rank(b: Bits): int {
    (if b.used then 2 else 0) + (if b.modified then 1 else 0)
  }

  /** How many slots the hand passes before it reaches slot i of n. */
  function Distance(i: int, hand: int, n: int): int {
    if hand <= i then i - hand else i - hand + n
  }

  /** v has the least (rank, distance). */
  ghost predicate IsVictim(bits: seq<Bits>, hand: nat, v: int) {
    && 0 <= v < |bits|
    && forall w | 0 <= w < |bits| ::
         || Rank(bits[v]) < Rank(bits[w])
         || (Rank(bits[v]) == Rank(bits[w]) && Distance(v, hand, |bits|) <= Distance(w, hand, |bits|))
  }

  /** The hand leaves the used bit of slot i alone on its way to v. */
  ghost predicate Spared(bits: seq<Bits>, hand: nat, v: int, i: int)
    requires 0 <= v < |bits|
  {
    match Rank(bits[v])
    case 0 => true
    case 1 => Distance(v, hand, |bits|) <= Distance(i, hand, |bits|)
    case _ => false
  }

  /** A victim of class (0,0) costs no used bit, one of class (0,1) those the hand passed
      before it, and any other all of them.  No modified bit ever changes. */
  ghost predicate Aged(bits: seq<Bits>, after: seq<Bits>, hand: nat, v: int)
    requires 0 <= v < |bits|
  {
    && |after| == |bits|
    && forall i | 0 <= i < |bits| ::
         && after[i].modified == bits[i].modified
         && after[i].used == (bits[i].used && Spared(bits, hand, v, i))
  }

  // ---------------------------------------------------------------- what is done

  /** The class a probe looks for: (0,0) on the first try, (0,1) on the second. */
  function Wanted(try1: bool): Bits { Bits(false, !try1) }

  /** The first slot of the wanted class in [lo, hi), or -1. */
  function Scan(try1: bool, bits: seq<Bits>, lo: nat, hi: nat): (v: int)
    requires hi <= |bits|
    ensures v == -1 || lo <= v < hi
    decreases hi - lo
  {
    if hi <= lo then -1
    else if bits[lo] == Wanted(try1) then lo
    else Scan(try1, bits, lo + 1, hi)
  }

  /** getVictimIndex: a range that ends past the working set is refused. */
  function Probe(try1: bool, bits: seq<Bits>, lo: nat, hi: nat): (v: int)
    ensures v == -1 || lo <= v < hi <= |bits|
  {
    if |bits| < hi then -1 else Scan(try1, bits, lo, hi)
  }

  function Unused(bits: seq<Bits>, lo: int, hi: int): seq<Bits> {
    seq(|bits|, i requires 0 <= i < |bits| => if lo <= i < hi then bits[i].(used := false) else bits[i])
  }

  lemma UnusedStep(bits: seq<Bits>, lo: int, hi: int)
    requires 0 <= lo <= hi < |bits|
    ensures Unused(bits, lo, hi)[hi] == bits[hi]
    ensures Unused(bits, lo, hi + 1) == Unused(bits, lo, hi)[hi := bits[hi].(used := false)]
  {
  }

  lemma UnusedNone(bits: seq<Bits>, lo: int, hi: int)
    requires hi <= lo
    ensures Unused(bits, lo, hi) == bits
  {
  }

  /** The bits a probe leaves: the second try takes the used bit of every slot it passes. */
  function ProbeBits(try1: bool, bits: seq<Bits>, lo: nat, hi: nat): (after: seq<Bits>)
    ensures |after| == |bits|
  {
    if try1 || |bits| < hi then bits
    else
      var v := Probe(try1, bits, lo, hi);
      Unused(bits, lo, if v == -1 then hi else v)
  }

  lemma ProbeUnfold(try1: bool, bits: seq<Bits>, lo: nat, hi: nat)
    requires hi <= |bits|
    ensures Probe(try1, bits, lo, hi) == Scan(try1, bits, lo, hi)
    ensures var v := Scan(try1, bits, lo, hi);
            ProbeBits(try1, bits, lo, hi) == if try1 then bits else Unused(bits, lo, if v == -1 then hi else v)
  {
  }

  lemma ScanUnfold(try1: bool, bits: seq<Bits>, lo: nat, hi: nat)
    requires hi <= |bits|
    ensures Scan(try1, bits, lo, hi)
         == if hi <= lo then -1 else if bits[lo] == Wanted(try1) then lo else Scan(try1, bits, lo + 1, hi)
  {
  }

  datatype Outcome = Outcome(victim: int, bits: seq<Bits>)

  /** Both probes of one try: from the hand to the end, then from the start to the hand. */
  function Sweep(try1: bool, bits: seq<Bits>, hand: nat): (o: Outcome)
    ensures |o.bits| == |bits|
  {
    var v := Probe(try1, bits, hand, |bits|);
    var after := ProbeBits(try1, bits, hand, |bits|);
    if v != -1 then Outcome(v, after)
    else Outcome(Probe(try1, after, 0, hand), ProbeBits(try1, after, 0, hand))
  }

  /** One turn of the endless loop. */
  function Round(bits: seq<Bits>, hand: nat): (o: Outcome)
    ensures |o.bits| == |bits|
  {
    var first := Sweep(true, bits, hand);
    if first.victim != -1 then first else Sweep(false, first.bits, hand)
  }

  function Rounds(bits: seq<Bits>, hand: nat, k: nat): Outcome
    decreases k
  {
    if k == 0 then Outcome(-1, bits)
    else
      var o := Round(bits, hand);
      if o.victim != -1 then o else Rounds(o.bits, hand, k - 1)
  }

  lemma RoundsUnfold(bits: seq<Bits>, hand: nat, k: nat)
    ensures var o := Round(bits, hand);
            Rounds(bits, hand, k) == if k == 0 then Outcome(-1, bits)
                                     else if o.victim != -1 then o else Rounds(o.bits, hand, k - 1)
  {
  }

  // ---------------------------------------------------------------- proofs

  lemma {:induction false} ScanFinds(try1: bool, bits: seq<Bits>, lo: nat, hi: nat)
    requires hi <= |bits|
    ensures var v := Scan(try1, bits, lo, hi);
            && (v != -1 ==> bits[v] == Wanted(try1))
            && forall i | lo <= i < (if v == -1 then hi else v) :: bits[i] != Wanted(try1)
    decreases hi - lo
  {
    if lo < hi && bits[lo] != Wanted(try1) { ScanFinds(try1, bits, lo + 1, hi); }
  }

  /** A sweep finds the nearest slot of its class, if there is one. */
  lemma FirstSweep(bits: seq<Bits>, hand: nat)
    requires hand <= |bits|
    ensures var o := Sweep(true, bits, hand);
            && o.bits == bits
            && if o.victim == -1 then forall i | 0 <= i < |bits| :: bits[i] != Wanted(true)
               else && 0 <= o.victim < |bits| && bits[o.victim] == Wanted(true)
                    && forall i | 0 <= i < |bits| && bits[i] == Wanted(true) ::
                         Distance(o.victim, hand, |bits|) <= Distance(i, hand, |bits|)
  {
    ScanFinds(true, bits, hand, |bits|);
    ScanFinds(true, bits, 0, hand);
  }

  lemma SecondSweep(bits: seq<Bits>, hand: nat)
    requires hand <= |bits|
    ensures var o := Sweep(false, bits, hand);
            && (forall i | 0 <= i < |bits| :: o.bits[i].modified == bits[i].modified)
            && if o.victim == -1 then
                 && (forall i | 0 <= i < |bits| :: bits[i] != Wanted(false))
                 && forall i | 0 <= i < |bits| :: !o.bits[i].used
               else
                 && 0 <= o.victim < |bits| && bits[o.victim] == Wanted(false)
                 && (forall i | 0 <= i < |bits| && bits[i] == Wanted(false) ::
                       Distance(o.victim, hand, |bits|) <= Distance(i, hand, |bits|))
                 && forall i | 0 <= i < |bits| ::
                      o.bits[i].used <==> bits[i].used && Distance(o.victim, hand, |bits|) <= Distance(i, hand, |bits|)
  {
    ScanFinds(false, bits, hand, |bits|);
    var after := ProbeBits(false, bits, hand, |bits|);
    ScanFinds(false, after, 0, hand);
  }

  /** Within two turns the loop returns the preferred victim and has aged the used bits
      exactly as far as that victim's class requires. */
  lemma TwoRoundsSuffice(bits: seq<Bits>, hand: nat)
    requires 0 < |bits| && hand <= |bits|
    ensures var o := Rounds(bits, hand, 2);
            IsVictim(bits, hand, o.victim) && Aged(bits, o.bits, hand, o.victim)
  {
    FirstSweep(bits, hand);
    if Sweep(true, bits, hand).victim == -1 {
      SecondSweep(bits, hand);
      var once := Round(bits, hand);
      if once.victim == -1 {
        assert forall i | 0 <= i < |bits| :: bits[i].used && !once.bits[i].used;
        FirstSweep(once.bits, hand);
        if Sweep(true, once.bits, hand).victim == -1 {
          assert once.bits[0] == Wanted(false);
          SecondSweep(once.bits, hand);
        }
      }
    }
  }

  /** A hand beyond the working set refuses every probe: the loop finds a victim exactly
      when the hand lies within the set, and otherwise never changes anything. */
  lemma {:induction false} HandPastTheEnd(bits: seq<Bits>, hand: nat, k: nat)
    requires 0 < |bits|
    ensures |bits| < hand ==> Rounds(bits, hand, k) == Outcome(-1, bits)
    ensures 2 <= k ==> (Rounds(bits, hand, k).victim != -1 <==> hand <= |bits|)
    decreases k
  {
    if |bits| < hand {
      if 0 < k {
        assert Unused(bits, hand, |bits|) == bits;
        HandPastTheEnd(bits, hand, k - 1);
      }
    } else if 2 <= k {
      TwoRoundsSuffice(bits, hand);
      var o := Round(bits, hand);
      assert Rounds(bits, hand, 2) == if o.victim != -1 then o else Rounds(o.bits, hand, 1);
      assert o.victim == -1 ==> Rounds(o.bits, hand, 1).victim == Round(o.bits, hand).victim;
    }
  }
}
