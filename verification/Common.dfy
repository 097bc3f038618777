/** Vocabulary shared by the models: machine constants, optional values, and the intrusive
    lists of the kernel, a list being the sequence of its members with the head first. */
module Common {

  /** 2^32: addresses, sizes and page-table entries are 32-bit words. */
  const WORD: nat := 0x1_0000_0000
  const PAGE_SIZE: nat := 4096

  /** A physical frame, by its number. */
  type Frame = nat

  datatype Option<+T> = None | Some(value: T)

  ghost predicate Distinct<T>(s: seq<T>) {
    forall i, j | 0 <= i < j < |s| :: s[i] != s[j]
  }

  /** A frame has no references exactly when it is free or held, and no frame is listed
      twice; held are frames a caller has taken from the free list and not yet mapped. */
  ghost predicate FreeOk(free: seq<Frame>, refs: seq<nat>, held: set<Frame>) {
    && Distinct(free)
    && (forall f | f in free :: f < |refs| && f !in held)
    && (forall f | f in held :: f < |refs|)
    && forall f: nat | f < |refs| :: refs[f] == 0 <==> f in free || f in held
  }

  /** LIST_REMOVE: the list without its (only) occurrence of x. */
  function Without<T(==,!new)>(s: seq<T>, x: T): (r: seq<T>)
    ensures forall y :: y in r ==> y in s
    ensures forall y :: y in s && y != x ==> y in r
    ensures Distinct(s) ==> Distinct(r) && x !in r
    ensures x !in s ==> r == s
    ensures Distinct(s) && x in s ==> |r| == |s| - 1
  {
    if s == [] then []
    else
      assert Distinct(s) ==> Distinct(s[1..]) && s[0] !in s[1..];
      assert forall y :: y in s <==> y == s[0] || y in s[1..];
      if s[0] == x then s[1..]
      else [s[0]] + Without(s[1..], x)
  }

  lemma WithoutStep<T(!new)>(y: T, s: seq<T>, x: T)
    ensures Without([y] + s, x) == if y == x then s else [y] + Without(s, x)
  {
    assert ([y] + s)[1..] == s;
  }

  lemma {:induction false} WithoutAfter<T(!new)>(a: seq<T>, x: T, t: seq<T>)
    requires x !in a
    ensures Without(a + t, x) == a + Without(t, x)
  {
    hide Without;
    if a == [] {
      assert a + t == t;
    } else {
      WithoutAfter(a[1..], x, t);
      WithoutStep(a[0], a[1..] + t, x);
      assert a + t == [a[0]] + (a[1..] + t);
    }
  }

  /** Removing a member leaves the others in their order. */
  lemma WithoutKeepsOrder<T(!new)>(a: seq<T>, x: T, b: seq<T>)
    requires x !in a
    ensures Without(a + [x] + b, x) == a + b
  {
    hide Without;
    WithoutAfter(a, x, [x] + b);
    WithoutStep(x, b, x);
    assert a + [x] + b == a + ([x] + b);
  }

  /** LIST_INSERT_HEAD keeps a list free of duplicates when the member is new. */
  lemma InsertDistinct<T>(x: T, s: seq<T>)
    requires Distinct(s) && x !in s
    ensures Distinct([x] + s)
  {
  }
}
