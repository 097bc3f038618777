/** The kernel heap of kheap.c: a table of pages, each tagged with the start address of its
    block, over the kernel page tables and the list of free frames. */
module KernelHeap {
  import opened Common
  import opened HeapSearch

  /** The heap occupies the pages from base.  frameOf maps a heap page to the frame behind
      it, last is the page of lastAllocatedKHpage, and raw says that the page table has not
      been initialised yet. */
  datatype Heap = Heap(
    base: nat,
    tag: seq<nat>,
    isEmpty: seq<bool>,
    frameOf: map<nat, Frame>,
    free: seq<Frame>,
    last: nat,
    raw: bool)

  function Addr(h: Heap, i: nat): nat { h.base + PAGE_SIZE * i }

  function Size(h: Heap): nat { |h.isEmpty| }

  // ---------------------------------------------------------------- invariant

  /** Page i belongs to the block that starts at page s. */
  ghost predicate InBlock(h: Heap, s: nat, i: nat)
    requires |h.tag| == |h.isEmpty|
  {
    s <= i < |h.tag| && forall j | s <= j <= i :: !h.isEmpty[j] && h.tag[j] == Addr(h, s)
  }

  /** A free page is tagged with its own address, and a page in use with that of a block that
      reaches it without a gap. */
  ghost predicate Tagged(h: Heap, i: nat)
    requires |h.tag| == |h.isEmpty| && i < |h.tag|
  {
    if h.isEmpty[i] then h.tag[i] == Addr(h, i)
    else exists s: nat :: InBlock(h, s, i)
  }

  /** The pages in use are exactly the mapped ones; no frame is mapped twice, none that is
      mapped is free, and frame 0 is never handed out. */
  ghost predicate Frames(h: Heap) {
    && (forall i: nat :: i in h.frameOf <==> i < Size(h) && !h.isEmpty[i])
    && (forall i, j | i in h.frameOf && j in h.frameOf && i != j :: h.frameOf[i] != h.frameOf[j])
    && (forall i | i in h.frameOf :: h.frameOf[i] !in h.free && 0 < h.frameOf[i])
    && Distinct(h.free) && 0 !in h.free
  }

  ghost predicate Untouched(h: Heap) {
    && (forall i | 0 <= i < |h.tag| :: h.tag[i] == 0)
    && (forall i | 0 <= i < |h.isEmpty| :: !h.isEmpty[i])
    && h.frameOf == map[] && h.last == 0 && Distinct(h.free) && 0 !in h.free
  }

  ghost predicate Inv(h: Heap) {
    && |h.tag| == |h.isEmpty| && h.last <= Size(h) && 0 < h.base
    && if h.raw then Untouched(h) else Frames(h) && forall i | 0 <= i < Size(h) :: Tagged(h, i)
  }

  // ---------------------------------------------------------------- operations on values

  /** A table whose pages are all free under their own addresses: what
      initializaKernelHeapPages leaves. */
  function OwnTag(h: Heap, i: nat): nat { Addr(h, i) }

  function Initialised(h: Heap): Heap {
    h.(tag := seq(Size(h), i requires 0 <= i => OwnTag(h, i)), isEmpty := seq(Size(h), _ => true), raw := false)
  }

  /** The heap kmalloc works on. */
  function Ready(h: Heap): Heap {
    if h.raw then Initialised(h) else h
  }

  function TagIf(h: Heap, i: nat, inside: bool, tag: nat): nat
    requires i < |h.tag|
  {
    if inside then tag else h.tag[i]
  }

  /** The page-table entries of pages [s, s + k) made to name the given frames. */
  function Mapped(frameOf: map<nat, Frame>, s: nat, k: nat, frames: seq<Frame>): (r: map<nat, Frame>)
    requires k <= |frames|
    ensures forall i: nat :: i in r <==> i in frameOf || s <= i < s + k
    ensures forall i: nat | i in r :: r[i] == if s <= i < s + k then frames[i - s] else frameOf[i]
    decreases k
  {
    if k == 0 then frameOf else Mapped(frameOf, s, k - 1, frames)[s + k - 1 := frames[k - 1]]
  }

  /** Pages [s, s + k) become one block backed by the first k free frames. */
  function Taken(h: Heap, s: nat, k: nat): Heap
    requires |h.tag| == |h.isEmpty| && s + k <= Size(h) && k <= |h.free|
  {
    h.(tag := seq<nat>(Size(h), i requires 0 <= i < Size(h) => TagIf(h, i, s <= i < s + k, Addr(h, s))),
       isEmpty := seq(Size(h), i requires 0 <= i < Size(h) => h.isEmpty[i] && !(s <= i < s + k)),
       frameOf := Mapped(h.frameOf, s, k, h.free),
       free := h.free[k..])
  }

  function Allocated(h: Heap, s: nat, k: nat): Heap
    requires |h.tag| == |h.isEmpty| && s + k <= Size(h) && k <= |h.free|
  {
    Taken(h, s, k).(last := s + k)
  }

  /** The first page from i that is not in use under the given tag. */
  function BlockEnd(h: Heap, i: nat, tag: nat): (e: nat)
    requires |h.tag| == |h.isEmpty| && i <= Size(h)
    ensures i <= e <= Size(h)
    decreases Size(h) - i
  {
    if i < Size(h) && !h.isEmpty[i] && h.tag[i] == tag then BlockEnd(h, i + 1, tag) else i
  }

  /** The frames of pages [s, e) pushed one by one on the free list. */
  function Pushed(frameOf: map<nat, Frame>, s: nat, e: nat, free: seq<Frame>): (r: seq<Frame>)
    requires s <= e && forall i | s <= i < e :: i in frameOf
    ensures |r| == |free| + (e - s)
    decreases e
  {
    if e == s then free else [frameOf[e - 1]] + Pushed(frameOf, s, e - 1, free)
  }

  function Unmapped(frameOf: map<nat, Frame>, s: nat, e: nat): map<nat, Frame> {
    map i | i in frameOf && !(s <= i < e) :: frameOf[i]
  }

  lemma MappedUnmapped(frameOf: map<nat, Frame>, s: nat, k: nat, frames: seq<Frame>)
    requires k <= |frames| && forall i: nat | s <= i < s + k :: i !in frameOf
    ensures Unmapped(Mapped(frameOf, s, k, frames), s, s + k) == frameOf
  {
  }

  /** Pages [s, e) given back. */
  function Released(h: Heap, s: nat, e: nat): Heap
    requires |h.tag| == |h.isEmpty| && s <= e <= Size(h) && forall i | s <= i < e :: i in h.frameOf
  {
    h.(tag := seq<nat>(Size(h), i requires 0 <= i < Size(h) => TagIf(h, i, s <= i < e, Addr(h, i))),
       isEmpty := seq(Size(h), i requires 0 <= i < Size(h) => h.isEmpty[i] || s <= i < e),
       frameOf := Unmapped(h.frameOf, s, e),
       free := Pushed(h.frameOf, s, e, h.free))
  }

  // ---------------------------------------------------------------- blocks

  lemma {:induction false} BlockEndSpans(h: Heap, i: nat, tag: nat)
    requires |h.tag| == |h.isEmpty| && i <= Size(h)
    ensures var e := BlockEnd(h, i, tag);
            && (forall j | i <= j < e :: !h.isEmpty[j] && h.tag[j] == tag)
            && (e < Size(h) ==> h.isEmpty[e] || h.tag[e] != tag)
    decreases Size(h) - i
  {
    if i < Size(h) && !h.isEmpty[i] && h.tag[i] == tag { BlockEndSpans(h, i + 1, tag); }
  }

  /** Only a block of its own start carries a tag: every page in use under the address of s
      lies in the block from s, and that block is an interval. */
  lemma BlockIsInterval(h: Heap, s: nat)
    requires Inv(h) && !h.raw && s < Size(h)
    ensures var e := BlockEnd(h, s, Addr(h, s));
            forall i | 0 <= i < Size(h) :: (!h.isEmpty[i] && h.tag[i] == Addr(h, s)) <==> s <= i < e
  {
    var e := BlockEnd(h, s, Addr(h, s));
    BlockEndSpans(h, s, Addr(h, s));
    forall i | 0 <= i < Size(h) && !h.isEmpty[i] && h.tag[i] == Addr(h, s)
      ensures s <= i < e
    {
      assert Tagged(h, i);
      var t: nat :| InBlock(h, t, i);
      assert t == s;
    }
  }

  lemma InitialisedKeeps(h: Heap)
    requires Inv(h) && h.raw
    ensures Inv(Initialised(h)) && !Initialised(h).raw
  {
  }

  lemma TakenPages(h: Heap, s: nat, k: nat)
    requires |h.tag| == |h.isEmpty| && s + k <= Size(h) && k <= |h.free|
    ensures var t := Taken(h, s, k);
            && (forall j: nat :: Addr(t, j) == Addr(h, j))
            && (forall j: nat | j < Size(h) :: t.isEmpty[j] == (h.isEmpty[j] && !(s <= j < s + k)))
            && forall j: nat | j < Size(h) :: t.tag[j] == if s <= j < s + k then Addr(h, s) else h.tag[j]
  {
    var t := Taken(h, s, k);
    assert forall j: nat | j < Size(h) :: t.tag[j] == TagIf(h, j, s <= j < s + k, Addr(h, s));
  }

  lemma ReleasedPages(h: Heap, s: nat, e: nat)
    requires |h.tag| == |h.isEmpty| && s <= e <= Size(h) && forall i | s <= i < e :: i in h.frameOf
    ensures var t := Released(h, s, e);
            && (forall j: nat :: Addr(t, j) == Addr(h, j))
            && (forall j: nat | j < Size(h) :: t.isEmpty[j] == (h.isEmpty[j] || s <= j < e))
            && forall j: nat | j < Size(h) :: t.tag[j] == if s <= j < e then Addr(h, j) else h.tag[j]
  {
    var t := Released(h, s, e);
    assert forall j: nat | j < Size(h) :: t.tag[j] == TagIf(h, j, s <= j < e, Addr(h, j));
  }

  lemma TakenKeys(h: Heap, s: nat, k: nat)
    requires Inv(h) && !h.raw && s + k <= Size(h) && k <= |h.free|
    ensures var t := Taken(h, s, k);
            forall i: nat :: i in t.frameOf <==> i < Size(h) && !t.isEmpty[i]
  {
    TakenPages(h, s, k);
  }

  /** The head of a list without duplicates shares no member with its rest. */
  lemma HeadApart(free: seq<Frame>, k: nat)
    requires Distinct(free) && k <= |free|
    ensures Distinct(free[k..]) && (forall f | f in free[k..] :: f in free)
    ensures forall i | 0 <= i < k :: free[i] in free && free[i] !in free[k..]
  {
  }

  /** Entries that name fresh frames keep a mapping injective. */
  lemma MappedInjective(frameOf: map<nat, Frame>, s: nat, k: nat, frames: seq<Frame>)
    requires Distinct(frames) && k <= |frames|
    requires forall i, j | i in frameOf && j in frameOf && i != j :: frameOf[i] != frameOf[j]
    requires forall i | i in frameOf :: frameOf[i] !in frames
    ensures var r := Mapped(frameOf, s, k, frames);
            forall i, j | i in r && j in r && i != j :: r[i] != r[j]
  {
    assert forall i | 0 <= i < k :: frames[i] in frames;
  }

  lemma TakenFrames(h: Heap, s: nat, k: nat)
    requires Inv(h) && !h.raw && Window(h.isEmpty, 0, Size(h), k, s) && k <= |h.free|
    ensures Frames(Taken(h, s, k))
  {
    TakenKeys(h, s, k);
    HeadApart(h.free, k);
    MappedInjective(h.frameOf, s, k, h.free);
  }

  lemma TakenTags(h: Heap, s: nat, k: nat)
    requires Inv(h) && !h.raw && Window(h.isEmpty, 0, Size(h), k, s) && k <= |h.free|
    ensures forall i | 0 <= i < Size(h) :: Tagged(Taken(h, s, k), i)
  {
    var t := Taken(h, s, k);
    TakenPages(h, s, k);
    hide Taken, Frames;
    forall i: nat | i < Size(h)
      ensures Tagged(t, i)
    {
      assert Tagged(h, i);
      if s <= i < s + k {
        assert InBlock(t, s, i);
      } else if !h.isEmpty[i] {
        var b: nat :| InBlock(h, b, i);
        forall j | b <= j <= i
          ensures !t.isEmpty[j] && t.tag[j] == Addr(t, b)
        {
          assert !h.isEmpty[j] && h.tag[j] == Addr(h, b);
        }
        assert InBlock(t, b, i);
      }
    }
  }

  /** Allocating a free window keeps the block structure. */
  lemma AllocatedKeeps(h: Heap, s: nat, k: nat)
    requires Inv(h) && !h.raw && Window(h.isEmpty, 0, Size(h), k, s) && k <= |h.free|
    ensures Inv(Allocated(h, s, k))
  {
    TakenFrames(h, s, k);
    TakenTags(h, s, k);
    var t, a := Taken(h, s, k), Allocated(h, s, k);
    forall i | 0 <= i < Size(h)
      ensures Tagged(a, i)
    {
      assert Tagged(t, i);
      if !t.isEmpty[i] {
        var b: nat :| InBlock(t, b, i);
        assert InBlock(a, b, i);
      }
    }
  }

  /** The new block, page by page: its pages are in use under its start's address, page s + j is
      backed by the j-th free frame, and the last page allocated is where the block ends. */
  lemma AllocatedExact(h: Heap, s: nat, k: nat)
    requires |h.tag| == |h.isEmpty| && s + k <= Size(h) && k <= |h.free|
    ensures var a := Allocated(h, s, k);
            && |a.tag| == |a.isEmpty| == Size(h) && a.base == h.base && a.raw == h.raw
            && (forall i: nat | i < Size(h) ::
                  if s <= i < s + k then !a.isEmpty[i] && a.tag[i] == h.base + PAGE_SIZE * s
                  else a.isEmpty[i] == h.isEmpty[i] && a.tag[i] == h.tag[i])
            && (forall i: nat :: i in a.frameOf <==> i in h.frameOf || s <= i < s + k)
            && (forall i: nat | i in a.frameOf ::
                  a.frameOf[i] == if s <= i < s + k then h.free[i - s] else h.frameOf[i])
            && a.free == h.free[k..] && a.last == s + k
  {
    TakenPages(h, s, k);
    TakenSizes(h, s, k);
  }

  lemma {:induction false} PushedHas(frameOf: map<nat, Frame>, s: nat, e: nat, free: seq<Frame>)
    requires s <= e && (forall i | s <= i < e :: i in frameOf) && Distinct(free)
    requires forall i | s <= i < e :: frameOf[i] !in free
    requires forall i, j | s <= i < e && s <= j < e && i != j :: frameOf[i] != frameOf[j]
    ensures Distinct(Pushed(frameOf, s, e, free))
    ensures forall f | f in Pushed(frameOf, s, e, free) ::
              f in free || exists i :: s <= i < e && frameOf[i] == f
    decreases e
  {
    if s == e {
    } else {
      PushedHas(frameOf, s, e - 1, free);
      InsertDistinct(frameOf[e - 1], Pushed(frameOf, s, e - 1, free));
    }
  }

  lemma ReleasedFrames(h: Heap, s: nat, e: nat)
    requires Inv(h) && !h.raw && s <= e <= Size(h) && forall i | s <= i < e :: i in h.frameOf
    ensures Frames(Released(h, s, e))
  {
    PushedHas(h.frameOf, s, e, h.free);
    ReleasedPages(h, s, e);
  }

  /** kfree: the block from page s, which is nothing unless s starts a block. */
  ghost function Freed(h: Heap, s: nat): Heap
    requires Inv(h) && s <= Size(h)
  {
    var e := BlockEnd(h, s, Addr(h, s));
    BlockEndSpans(h, s, Addr(h, s));
    BlockMapped(h, s);
    Released(h, s, e)
  }

  lemma BlockMapped(h: Heap, s: nat)
    requires Inv(h) && s <= Size(h)
    ensures forall i | s <= i < BlockEnd(h, s, Addr(h, s)) :: i in h.frameOf
    ensures h.raw ==> BlockEnd(h, s, Addr(h, s)) == s
  {
    BlockEndSpans(h, s, Addr(h, s));
  }

  lemma FreedTags(h: Heap, s: nat)
    requires Inv(h) && !h.raw && s < Size(h)
    ensures forall i | 0 <= i < Size(h) :: Tagged(Freed(h, s), i)
  {
    var t, e := Freed(h, s), BlockEnd(h, s, Addr(h, s));
    BlockIsInterval(h, s);
    BlockMapped(h, s);
    ReleasedPages(h, s, e);
    forall i | 0 <= i < Size(h)
      ensures Tagged(t, i)
    {
      assert Tagged(h, i);
      if !(s <= i < e) && !h.isEmpty[i] {
        var b: nat :| InBlock(h, b, i);
        assert b != s;
        assert InBlock(t, b, i);
      }
    }
  }

  /** Freeing the start of a block frees exactly the pages of that block, whatever adjoins it,
      and freeing any other page changes nothing. */
  lemma FreedExact(h: Heap, s: nat)
    requires Inv(h) && !h.raw && s < Size(h)
    ensures var t := Freed(h, s);
            && Inv(t)
            && (forall i | 0 <= i < Size(h) ::
                  if !h.isEmpty[i] && h.tag[i] == Addr(h, s) then t.isEmpty[i] && i !in t.frameOf
                  else t.isEmpty[i] == h.isEmpty[i] && t.tag[i] == h.tag[i] && (i in h.frameOf <==> i in t.frameOf))
            && (h.isEmpty[s] || h.tag[s] != Addr(h, s) ==> t == h)
  {
    var t, e := Freed(h, s), BlockEnd(h, s, Addr(h, s));
    BlockIsInterval(h, s);
    BlockMapped(h, s);
    ReleasedPages(h, s, e);
    ReleasedFrames(h, s, e);
    FreedTags(h, s);
    if e == s {
      assert t.tag == h.tag && t.isEmpty == h.isEmpty && t.frameOf == h.frameOf;
    }
  }

  /** The frames of released pages lie first on the free list, that of the last page first. */
  lemma {:induction false} PushedAt(frameOf: map<nat, Frame>, s: nat, e: nat, free: seq<Frame>)
    requires s <= e && forall i | s <= i < e :: i in frameOf
    ensures var r := Pushed(frameOf, s, e, free);
            && (forall i: nat | s <= i < e :: r[e - 1 - i] == frameOf[i])
            && r[e - s..] == free
    decreases e
  {
    if e == s {
    } else {
      PushedAt(frameOf, s, e - 1, free);
      var r, q := Pushed(frameOf, s, e, free), Pushed(frameOf, s, e - 1, free);
      assert r == [frameOf[e - 1]] + q;
      assert r[e - s..] == q[e - 1 - s..];
      forall i: nat | s <= i < e
        ensures r[e - 1 - i] == frameOf[i]
      {
        if i < e - 1 { assert r[e - 1 - i] == q[e - 2 - i]; }
      }
    }
  }

  /** What kfree leaves of everything but the pages: the frames go to the head of the free list,
      that of the last page first, and neither the last allocation nor the bounds change. */
  lemma FreedRest(h: Heap, s: nat)
    requires Inv(h) && !h.raw && s < Size(h)
    ensures var t, e := Freed(h, s), BlockEnd(h, s, Addr(h, s));
            && t.base == h.base && t.last == h.last && t.raw == h.raw
            && |t.free| == |h.free| + (e - s) && t.free[e - s..] == h.free
            && (forall i: nat | s <= i < e :: i in h.frameOf && t.free[e - 1 - i] == h.frameOf[i])
            && forall i | i in t.frameOf :: i in h.frameOf && t.frameOf[i] == h.frameOf[i]
  {
    BlockMapped(h, s);
    PushedAt(h.frameOf, s, BlockEnd(h, s, Addr(h, s)), h.free);
    hide Inv, Pushed;
  }

  /** Giving back a window just taken restores its pages. */
  lemma GiveBack(h: Heap, s: nat, k: nat)
    requires |h.tag| == |h.isEmpty| && s + k <= Size(h) && k <= |h.free|
    requires forall i: nat | s <= i < s + k :: h.isEmpty[i] && h.tag[i] == Addr(h, i) && i !in h.frameOf
    ensures var t := Released(Allocated(h, s, k), s, s + k);
            t.tag == h.tag && t.isEmpty == h.isEmpty && t.frameOf == h.frameOf && |t.free| == |h.free|
  {
    var a := Allocated(h, s, k);
    TakenPages(h, s, k);
    ReleasedPages(a, s, s + k);
    MappedUnmapped(h.frameOf, s, k, h.free);
    var t := Released(a, s, s + k);
    hide Mapped, Unmapped, Pushed;
    assert forall i: nat | i < Size(h) :: t.tag[i] == h.tag[i] && t.isEmpty[i] == h.isEmpty[i];
    assert t.tag == h.tag && t.isEmpty == h.isEmpty;
  }

  /** kmalloc followed by kfree of its result restores the page table of the heap, its
      mapping and the number of free frames. */
  lemma RoundTrip(h: Heap, s: nat, k: nat)
    requires Inv(h) && !h.raw && 0 < k && Window(h.isEmpty, 0, Size(h), k, s) && k <= |h.free|
    ensures Inv(Allocated(h, s, k))
    ensures var t := Freed(Allocated(h, s, k), s);
            t.tag == h.tag && t.isEmpty == h.isEmpty && t.frameOf == h.frameOf && |t.free| == |h.free|
  {
    hide InBlock, BlockEnd, Inv, Pushed, Mapped, Allocated, Released;
    HeapShape(h);
    AllocatedKeeps(h, s, k);
    AllocatedSize(h, s, k);
    AllocatedEnd(h, s, k);
    BlockMapped(Allocated(h, s, k), s);
    WindowPages(h, s, k);
    GiveBack(h, s, k);
  }

  lemma AllocatedSize(h: Heap, s: nat, k: nat)
    requires |h.tag| == |h.isEmpty| && s + k <= Size(h) && k <= |h.free|
    ensures var a := Allocated(h, s, k); |a.tag| == |a.isEmpty| == Size(h)
  {
  }

  /** The pages of a window are free, under their own addresses, and unmapped. */
  lemma WindowPages(h: Heap, s: nat, k: nat)
    requires Inv(h) && !h.raw && Window(h.isEmpty, 0, Size(h), k, s)
    ensures |h.tag| == |h.isEmpty|
    ensures forall i: nat | s <= i < s + k :: h.isEmpty[i] && h.tag[i] == Addr(h, i) && i !in h.frameOf
  {
    forall i: nat | s <= i < s + k
      ensures h.isEmpty[i] && h.tag[i] == Addr(h, i) && i !in h.frameOf
    {
      assert Tagged(h, i);
    }
  }

  /** Only the order of the frames differs: those of the block are now first, last page first. */
  lemma RoundTripFree(h: Heap, s: nat, k: nat)
    requires Inv(h) && !h.raw && 0 < k && Window(h.isEmpty, 0, Size(h), k, s) && k <= |h.free|
    ensures Inv(Allocated(h, s, k))
    ensures var t := Freed(Allocated(h, s, k), s);
            && |t.free| == |h.free| && t.free[k..] == h.free[k..]
            && forall j: nat | j < k :: t.free[k - 1 - j] == h.free[j]
  {
    hide Inv, Allocated, Freed, BlockEnd;
    HeapShape(h);
    AllocatedKeeps(h, s, k);
    AllocatedEnd(h, s, k);
    AllocatedExact(h, s, k);
    var a := Allocated(h, s, k);
    FreedRest(a, s);
    var t := Freed(a, s);
    assert t.free[k..] == a.free;
    forall j: nat | j < k
      ensures t.free[k - 1 - j] == h.free[j]
    {
      assert t.free[s + k - 1 - (s + j)] == a.frameOf[s + j];
    }
  }

  /** A new block ends where its window ends. */
  lemma AllocatedEnd(h: Heap, s: nat, k: nat)
    requires Inv(h) && !h.raw && 0 < k && Window(h.isEmpty, 0, Size(h), k, s) && k <= |h.free|
    ensures BlockEnd(Allocated(h, s, k), s, Addr(Allocated(h, s, k), s)) == s + k
  {
    var a := Allocated(h, s, k);
    TakenPages(h, s, k);
    BlockEndSpans(a, s, Addr(a, s));
    var e := BlockEnd(a, s, Addr(a, s));
    if s + k < Size(h) {
      assert Tagged(h, s + k);
      if !h.isEmpty[s + k] {
        assert h.isEmpty[s + k - 1];
        var b: nat :| InBlock(h, b, s + k);
        assert b == s + k;
      }
    }
  }

  // ---------------------------------------------------------------- address translation

  /** The first page from i up to last that the given physical address backs. */
  function FindPage(h: Heap, pa: nat, i: nat): (r: Option<nat>)
    ensures r.Some? ==> i <= r.value <= h.last && r.value in h.frameOf && h.frameOf[r.value] * PAGE_SIZE == pa
    decreases h.last + 1 - i
  {
    if h.last < i then None
    else if i in h.frameOf && h.frameOf[i] * PAGE_SIZE == pa then Some(i)
    else FindPage(h, pa, i + 1)
  }

  /** kheap_virtual_address: 0 when no page up to last is backed by the address. */
  function VirtualOf(h: Heap, pa: nat): nat {
    match FindPage(h, pa, 0) case Some(i) => Addr(h, i) case None => 0
  }

  /** kheap_physical_address of a heap address: the frame's address, 0 when nothing is mapped. */
  function PhysicalOf(h: Heap, va: nat): nat
    requires h.base <= va
  {
    var i := (va - h.base) / PAGE_SIZE;
    if i in h.frameOf then h.frameOf[i] * PAGE_SIZE else 0
  }

  /** A virtual address that is found translates back. */
  lemma VirtualInverts(h: Heap, pa: nat)
    requires Inv(h) && VirtualOf(h, pa) != 0
    ensures h.base <= VirtualOf(h, pa) && PhysicalOf(h, VirtualOf(h, pa)) == pa
  {
    var i := FindPage(h, pa, 0).value;
    assert (Addr(h, i) - h.base) / PAGE_SIZE == i;
  }

  lemma {:induction false} FindPageFinds(h: Heap, i: nat, j: nat)
    requires Inv(h) && j in h.frameOf && i <= j
    ensures FindPage(h, h.frameOf[j] * PAGE_SIZE, i) == if j <= h.last then Some(j) else None
    decreases h.last + 1 - i
  {
    if i <= h.last && i != j { FindPageFinds(h, i + 1, j); }
  }

  /** An address within a page translates like the page's, to 0 without a frame. */
  lemma PhysicalExact(h: Heap, i: nat, offset: nat)
    requires offset < PAGE_SIZE
    ensures PhysicalOf(h, h.base + PAGE_SIZE * i + offset) == if i in h.frameOf then h.frameOf[i] * PAGE_SIZE else 0
  {
    assert (PAGE_SIZE * i + offset) / PAGE_SIZE == i;
  }

  /** The answer is 0 exactly when no page up to the last allocation is backed by the address, and
      otherwise the lowest such page. */
  lemma VirtualExact(h: Heap, pa: nat)
    requires 0 < h.base
    ensures VirtualOf(h, pa) == 0 <==> forall i: nat | i in h.frameOf && i <= h.last :: h.frameOf[i] * PAGE_SIZE != pa
    ensures VirtualOf(h, pa) != 0 ==>
              exists i: nat ::
                && i in h.frameOf && i <= h.last && h.frameOf[i] * PAGE_SIZE == pa
                && VirtualOf(h, pa) == h.base + PAGE_SIZE * i
                && forall j: nat | j in h.frameOf && j < i :: h.frameOf[j] * PAGE_SIZE != pa
  {
    FindPageFirst(h, pa, 0);
  }

  lemma {:induction false} FindPageFirst(h: Heap, pa: nat, i: nat)
    ensures var r := FindPage(h, pa, i);
            forall j: nat | j in h.frameOf && i <= j && (if r.Some? then j < r.value else j <= h.last) ::
              h.frameOf[j] * PAGE_SIZE != pa
    decreases h.last + 1 - i
  {
    if h.last < i {
    } else if !(i in h.frameOf && h.frameOf[i] * PAGE_SIZE == pa) {
      FindPageFirst(h, pa, i + 1);
    }
  }

  /** A mapped heap page is recovered from its physical address exactly when it does not lie
      beyond the end of the most recent allocation. */
  lemma PhysicalInverts(h: Heap, i: nat)
    requires Inv(h) && i in h.frameOf
    ensures VirtualOf(h, PhysicalOf(h, Addr(h, i))) == Addr(h, i) <==> i <= h.last
    ensures h.last < i ==> VirtualOf(h, PhysicalOf(h, Addr(h, i))) == 0
  {
    assert (Addr(h, i) - h.base) / PAGE_SIZE == i;
    FindPageFinds(h, 0, i);
  }

  /** Three blocks of one page, the first of them freed and allocated again: page 2 is in use
      beyond the last allocation and its physical address is no longer found. */
  lemma PageBeyondLast()
    ensures var h := Heap(4096, [4096, 8192, 12288], [false, false, false], map[0 := 7, 1 := 8, 2 := 9], [], 1, false);
            Inv(h) && VirtualOf(h, PhysicalOf(h, Addr(h, 2))) == 0
  {
    var h := Heap(4096, [4096, 8192, 12288], [false, false, false], map[0 := 7, 1 := 8, 2 := 9], [], 1, false);
    assert InBlock(h, 0, 0) && InBlock(h, 1, 1) && InBlock(h, 2, 2);
    assert Tagged(h, 0) && Tagged(h, 1) && Tagged(h, 2);
    assert Inv(h);
    PhysicalInverts(h, 2);
  }

  // ---------------------------------------------------------------- the allocator

  /** The first page of the rest joins the block. */
  lemma TakenStep(h: Heap, s: nat, j: nat)
    requires |h.tag| == |h.isEmpty| && s + j < Size(h) && j < |h.free|
    ensures var t := Taken(h, s, j);
            && t.free != [] && t.free[0] == h.free[j]
            && Taken(h, s, j + 1) == t.(tag := t.tag[s + j := Addr(h, s)], isEmpty := t.isEmpty[s + j := false],
                                        frameOf := t.frameOf[s + j := h.free[j]], free := t.free[1..])
  {
    var t, u := Taken(h, s, j), Taken(h, s, j + 1);
    TakenPages(h, s, j);
    TakenPages(h, s, j + 1);
    hide Taken, TagIf, Mapped;
    TakenSizes(h, s, j);
    TakenSizes(h, s, j + 1);
    assert u.tag == t.tag[s + j := Addr(h, s)];
    assert u.isEmpty == t.isEmpty[s + j := false];
    TakenRest(h, s, j);
  }

  lemma TakenSizes(h: Heap, s: nat, k: nat)
    requires |h.tag| == |h.isEmpty| && s + k <= Size(h) && k <= |h.free|
    ensures var t := Taken(h, s, k); |t.tag| == |t.isEmpty| == Size(h)
  {
  }

  lemma TakenRest(h: Heap, s: nat, j: nat)
    requires |h.tag| == |h.isEmpty| && s + j < Size(h) && j < |h.free|
    ensures var t, u := Taken(h, s, j), Taken(h, s, j + 1);
            && t.free == h.free[j..] && u.free == t.free[1..]
            && u.frameOf == t.frameOf[s + j := h.free[j]]
            && u == t.(tag := u.tag, isEmpty := u.isEmpty, frameOf := u.frameOf, free := u.free)
  {
  }

  lemma TakenNone(h: Heap, s: nat)
    requires |h.tag| == |h.isEmpty| && s <= Size(h)
    ensures Taken(h, s, 0) == h
  {
    TakenPages(h, s, 0);
    assert Taken(h, s, 0).tag == h.tag && Taken(h, s, 0).isEmpty == h.isEmpty;
  }

  lemma TakenFree(h: Heap, s: nat, j: nat)
    requires |h.tag| == |h.isEmpty| && s + j <= Size(h) && j <= |h.free|
    ensures Taken(h, s, j).free == h.free[j..]
  {
  }

  lemma HeapShape(h: Heap)
    requires Inv(h)
    ensures |h.tag| == |h.isEmpty| && h.last <= Size(h)
  {
  }

  lemma ReleasedNone(h: Heap, s: nat)
    requires |h.tag| == |h.isEmpty| && s <= Size(h)
    ensures Released(h, s, s) == h
  {
    ReleasedPages(h, s, s);
    assert Released(h, s, s).tag == h.tag && Released(h, s, s).isEmpty == h.isEmpty;
    assert Released(h, s, s).frameOf == h.frameOf;
  }

  /** An address that starts no page is the tag of none, and before initialisation none is. */
  lemma StrangerTag(h: Heap, va: nat)
    requires Inv(h) && h.base <= va && (h.raw || Addr(h, (va - h.base) / PAGE_SIZE) != va)
    ensures forall i: nat | i < Size(h) && !h.isEmpty[i] :: h.tag[i] != va
  {
    forall i: nat | i < Size(h) && !h.isEmpty[i]
      ensures h.tag[i] != va
    {
      if !h.raw {
        assert Tagged(h, i);
        var b: nat :| InBlock(h, b, i);
        assert (Addr(h, b) - h.base) / PAGE_SIZE == b;
      }
    }
  }

  /** What kfree of an address of the heap releases. */
  lemma FreedByAddress(h: Heap, va: nat)
    requires Inv(h) && h.base <= va && (va - h.base) / PAGE_SIZE < Size(h)
    ensures var s := (va - h.base) / PAGE_SIZE;
            var e := BlockEnd(h, s, va);
            && (forall i | s <= i < e :: i in h.frameOf)
            && Released(h, s, s) == h
            && Inv(Released(h, s, e))
            && if Addr(h, s) == va && !h.raw then Released(h, s, e) == Freed(h, s)
               else Released(h, s, e) == h
  {
    var s := (va - h.base) / PAGE_SIZE;
    ReleasedNone(h, s);
    if Addr(h, s) == va && !h.raw {
      BlockMapped(h, s);
      FreedExact(h, s);
    } else {
      StrangerTag(h, va);
    }
  }

  lemma BlockEndUnfold(h: Heap, i: nat, tag: nat)
    requires |h.tag| == |h.isEmpty| && i <= Size(h)
    ensures BlockEnd(h, i, tag)
         == if i < Size(h) && !h.isEmpty[i] && h.tag[i] == tag then BlockEnd(h, i + 1, tag) else i
  {
  }

  /** Page e of a heap whose pages [s, e) have been released is as it was, and releasing it
      too extends the released part. */
  lemma ReleasedAt(h: Heap, s: nat, e: nat)
    requires |h.tag| == |h.isEmpty| && s <= e < Size(h) && forall i | s <= i < e :: i in h.frameOf
    ensures var r := Released(h, s, e);
            && |r.tag| == |r.isEmpty| == Size(h)
            && r.tag[e] == h.tag[e] && r.isEmpty[e] == h.isEmpty[e]
            && (e in h.frameOf ==>
                  && e in r.frameOf && r.frameOf[e] == h.frameOf[e]
                  && Released(h, s, e + 1)
                  == r.(tag := r.tag[e := Addr(h, e)], isEmpty := r.isEmpty[e := true],
                        frameOf := r.frameOf - {e}, free := [r.frameOf[e]] + r.free))
  {
    var r := Released(h, s, e);
    ReleasedPages(h, s, e);
    if e in h.frameOf {
      ReleasedPages(h, s, e + 1);
      var t := Released(h, s, e + 1);
      assert t.tag == r.tag[e := Addr(h, e)];
      assert t.isEmpty == r.isEmpty[e := true];
      assert t.frameOf == r.frameOf - {e};
    }
  }

  /** Byte b from the address lies in a page in use that belongs to the block from the address and
      has a frame. */
  ghost predicate Serves(h: Heap, address: nat, b: nat) {
    && h.base <= address
    && var i := (address + b - h.base) / PAGE_SIZE;
       i < |h.isEmpty| && i < |h.tag| && !h.isEmpty[i] && h.tag[i] == address && i in h.frameOf
  }

  ghost predicate ServesAll(h: Heap, address: nat, size: nat) {
    forall b: nat | b < size :: Serves(h, address, b)
  }

  /** A block allocated for a size serves every byte of it. */
  lemma BlockServes(h: Heap, s: nat, size: nat)
    requires size + PAGE_SIZE - 1 < WORD
    requires |h.tag| == |h.isEmpty| && s + PagesOf(size) <= Size(h) && PagesOf(size) <= |h.free|
    ensures ServesAll(Allocated(h, s, PagesOf(size)), Addr(h, s), size)
  {
    var k := PagesOf(size);
    PagesCover(size);
    AllocatedExact(h, s, k);
    hide Allocated, PagesOf;
    forall b: nat | b < size
      ensures Serves(Allocated(h, s, k), Addr(h, s), b)
    {
      PageOfByte(s, b);
      assert b / PAGE_SIZE < k;
    }
  }

  /** What kmalloc ends with once it has taken the pages of the window it found. */
  lemma Granted(h: Heap, s: nat, size: nat)
    requires Inv(h) && !h.raw && Window(h.isEmpty, 0, Size(h), PagesOf(size), s) && PagesOf(size) <= |h.free|
    ensures |h.tag| == |h.isEmpty| && s + PagesOf(size) <= Size(h)
    ensures var a := Allocated(h, s, PagesOf(size));
            && Inv(a) && a == Taken(h, s, PagesOf(size)).(last := s + PagesOf(size))
            && (size + PAGE_SIZE - 1 < WORD ==> ServesAll(a, Addr(h, s), size))
  {
    hide Taken, PagesOf, ServesAll, InBlock, Tagged, Frames;
    AllocatedKeeps(h, s, PagesOf(size));
    if size + PAGE_SIZE - 1 < WORD { BlockServes(h, s, size); }
  }

  lemma PageOfByte(s: nat, b: nat)
    ensures (PAGE_SIZE * s + b) / PAGE_SIZE == s + b / PAGE_SIZE
  {
  }

  class Allocator {
    const base: nat
    const tag: array<nat>
    const isEmpty: array<bool>
    var frameOf: map<nat, Frame>
    var free: seq<Frame>
    var last: nat
    var raw: bool

    /** A heap that has not been used: its globals are zero. */
    constructor (base: nat, pages: nat, free: seq<Frame>)
      requires 0 < base && Distinct(free) && 0 !in free
      ensures Valid() && raw && this.base == base && isEmpty.Length == pages && this.free == free
      ensures fresh(tag) && fresh(isEmpty)
    {
      this.base, this.free := base, free;
      tag := new nat[pages](_ => 0);
      isEmpty := new bool[pages](_ => false);
      frameOf, last, raw := map[], 0, true;
    }

    ghost function H(): Heap
      reads this, tag, isEmpty
    {
      Heap(base, tag[..], isEmpty[..], frameOf, free, last, raw)
    }

    ghost predicate Valid()
      reads this, tag, isEmpty
    {
      Inv(H())
    }

    method Initialise()
      requires tag.Length == isEmpty.Length
      modifies this`raw, tag, isEmpty
      ensures H() == Initialised(old(H()))
      ensures forall i | 0 <= i < tag.Length :: tag[i] == base + PAGE_SIZE * i && isEmpty[i]
    {
      for i := 0 to tag.Length
        invariant forall j | 0 <= j < i :: tag[j] == base + PAGE_SIZE * j && isEmpty[j]
      {
        tag[i] := base + PAGE_SIZE * i;
        isEmpty[i] := true;
      }
      raw := false;
      assert tag[..] == Initialised(old(H())).tag;
      assert isEmpty[..] == Initialised(old(H())).isEmpty;
    }

    /** One page of a new block: a frame from the free list, its mapping, and the page's
        record.  False stands for the panic without frames. */
    method TakePage(i: nat, startAddress: nat) returns (ok: bool)
      requires i < tag.Length == isEmpty.Length
      modifies this`frameOf, this`free, tag, isEmpty
      ensures ok <==> old(free) != []
      ensures H() == if !ok then old(H())
                     else old(H()).(tag := old(tag[..])[i := startAddress], isEmpty := old(isEmpty[..])[i := false],
                                    frameOf := old(frameOf)[i := old(free)[0]], free := old(free)[1..])
    {
      if free == [] { return false; }
      frameOf := frameOf[i := free[0]];
      free := free[1..];
      tag[i] := startAddress;
      isEmpty[i] := false;
      return true;
    }

    method Kmalloc(size: nat, bestFit: bool) returns (r: Allocation, ghost place: Option<nat>)
      requires Valid() && size < WORD
      modifies this, tag, isEmpty
      ensures var h, k := Ready(old(H())), PagesOf(size);
              && Inv(h) && Placed(h.isEmpty, h.last, k, bestFit, place)
              && match place
                 case None => r == NoSpace && H() == h
                 case Some(s) =>
                   && Window(h.isEmpty, 0, Size(h), k, s)
                   && if |h.free| < k then r == Exhausted
                      else r == At(Addr(h, s)) && H() == Allocated(h, s, k) && Valid()
      ensures RoundsUp(size, PagesOf(size))
      ensures r.At? && size + PAGE_SIZE - 1 < WORD ==> ServesAll(H(), r.address, size)
      ensures r.At? ==> place.Some? && r.address == base + PAGE_SIZE * place.value
      ensures r.At? ==> last == place.value + PagesOf(size)
    {
      hide Inv, InBlock, Tagged, Frames, Untouched, Window, FirstWindow, BestFits, Taken, Initialised;
      hide Allocated, ServesAll, PagesOf, RoundsUp;
      PagesCover(size);
      ghost var h0 := H();
      HeapShape(h0);
      var numberOfPages := PagesOf(size);
      if raw {
        InitialisedKeeps(h0);
        Initialise();
      }
      ghost var h := H();
      HeapShape(h);
      var found := Place(isEmpty, last, numberOfPages, bestFit);
      place := found;
      if found.None? { return NoSpace, place; }
      var s := found.value;
      PlacedIsWindow(h.isEmpty, h.last, numberOfPages, bestFit, s);
      TakenNone(h, s);
      var j := 0;
      while j < numberOfPages
        invariant j <= numberOfPages && j <= |h.free| && H() == Taken(h, s, j)
      {
        TakenFree(h, s, j);
        if j < |h.free| { TakenStep(h, s, j); }
        var ok := TakePage(s + j, base + PAGE_SIZE * s);
        if !ok { return Exhausted, place; }
        j := j + 1;
      }
      last := s + numberOfPages;
      Granted(h, s, size);
      return At(base + PAGE_SIZE * s), place;
    }

    /** Unmaps one page, frees its frame and resets its record. */
    method ReleasePage(i: nat)
      requires i < tag.Length == isEmpty.Length && i in frameOf
      modifies this`frameOf, this`free, tag, isEmpty
      ensures H() == old(H()).(tag := old(tag[..])[i := base + PAGE_SIZE * i], isEmpty := old(isEmpty[..])[i := true],
                               frameOf := old(frameOf) - {i}, free := [old(frameOf)[i]] + old(free))
    {
      free := [frameOf[i]] + free;
      frameOf := frameOf - {i};
      tag[i] := base + PAGE_SIZE * i;
      isEmpty[i] := true;
    }

    /** Frees the block that starts at the address, which must not lie below the heap. */
    method Kfree(virtualAddress: nat)
      requires Valid() && base <= virtualAddress
      modifies this`frameOf, this`free, tag, isEmpty
      ensures Valid()
      ensures var s := (virtualAddress - base) / PAGE_SIZE;
              if s < isEmpty.Length && Addr(old(H()), s) == virtualAddress && !raw then H() == Freed(old(H()), s)
              else H() == old(H())
    {
      hide Inv, InBlock, Tagged, Frames, Untouched, Released, Freed, BlockEnd;
      ghost var h := H();
      var i := (virtualAddress - base) / PAGE_SIZE;
      ghost var s := i;
      if s < isEmpty.Length { FreedByAddress(h, virtualAddress); }
      HeapShape(h);
      while i < tag.Length
        invariant s < Size(h) ==> s <= i <= BlockEnd(h, s, virtualAddress) <= Size(h)
        invariant s < Size(h) ==> BlockEnd(h, i, virtualAddress) == BlockEnd(h, s, virtualAddress)
        invariant H() == if s < Size(h) then Released(h, s, i) else h
      {
        BlockEndUnfold(h, i, virtualAddress);
        ReleasedAt(h, s, i);
        if !isEmpty[i] && tag[i] == virtualAddress {
          ReleasePage(i);
          i := i + 1;
        } else {
          return;
        }
      }
      if s < Size(h) { BlockEndUnfold(h, i, virtualAddress); }
    }

    /** kheap_virtual_address: scans up to and including the page after the last allocation. */
    method VirtualAddress(physicalAddress: nat) returns (va: nat)
      requires Valid()
      ensures va == VirtualOf(H(), physicalAddress)
    {
      var i := 0;
      while i <= last
        invariant i <= last + 1
        invariant FindPage(H(), physicalAddress, i) == FindPage(H(), physicalAddress, 0)
      {
        if i in frameOf && frameOf[i] * PAGE_SIZE == physicalAddress {
          return base + PAGE_SIZE * i;
        }
        i := i + 1;
      }
      return 0;
    }

    /** kheap_physical_address of an address of the heap. */
    method PhysicalAddress(virtualAddress: nat) returns (pa: nat)
      requires base <= virtualAddress
      ensures pa == PhysicalOf(H(), virtualAddress)
    {
      var i := (virtualAddress - base) / PAGE_SIZE;
      if i in frameOf { return frameOf[i] * PAGE_SIZE; }
      return 0;
    }
  }
}
