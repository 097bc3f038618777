/** The plain record of a heap: the length in pages of every live block, by its first page. */
module LiveBlocks {

  type Blocks = map<nat, nat>

  predicate Covers(live: Blocks, s: nat, i: nat) {
    s in live && s <= i < s + live[s]
  }

  ghost predicate Covered(live: Blocks, i: nat) {
    exists s: nat :: Covers(live, s, i)
  }

  /** No two blocks share a page. */
  ghost predicate Apart(live: Blocks) {
    forall s: nat, u: nat, i: nat | Covers(live, s, i) && Covers(live, u, i) :: s == u
  }

  /** A block of no pages is no block. */
  function Added(live: Blocks, s: nat, k: nat): Blocks {
    if 0 < k then live[s := k] else live
  }

  lemma CoveredWith(live: Blocks, s: nat, k: nat, i: nat)
    requires 0 < k ==> s !in live
    ensures Covered(Added(live, s, k), i) <==> Covered(live, i) || s <= i < s + k
    ensures forall u: nat ::
              Covers(Added(live, s, k), u, i) <==> Covers(live, u, i) || (u == s && s <= i < s + k)
  {
    var after := Added(live, s, k);
    forall u: nat
      ensures Covers(after, u, i) <==> Covers(live, u, i) || (u == s && s <= i < s + k)
    {
      assert u != s ==> (u in after <==> u in live);
    }
    if s <= i < s + k { assert Covers(after, s, i); }
    if Covered(live, i) {
      var u: nat :| Covers(live, u, i);
      assert Covers(after, u, i);
    }
    if Covered(after, i) && !(s <= i < s + k) {
      var u: nat :| Covers(after, u, i);
      assert Covers(live, u, i);
    }
  }

  lemma CoveredWithout(live: Blocks, s: nat, i: nat)
    requires Apart(live) && s in live
    ensures Covered(live - {s}, i) <==> Covered(live, i) && !Covers(live, s, i)
    ensures forall u: nat :: Covers(live - {s}, u, i) <==> u != s && Covers(live, u, i)
  {
    forall u: nat
      ensures Covers(live - {s}, u, i) <==> Covers(live, u, i) && u != s
    {
    }
    if Covered(live - {s}, i) {
      var u: nat :| Covers(live - {s}, u, i);
      assert Covers(live, u, i);
    }
    if Covered(live, i) && !Covers(live, s, i) {
      var u: nat :| Covers(live, u, i);
      assert Covers(live - {s}, u, i);
    }
  }
}
