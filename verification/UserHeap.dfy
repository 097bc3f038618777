/** The user heap of uheap.c: a second table of heap pages, which must agree with the page
    file the kernel keeps for the environment (memory_manager.c). */
module UserHeap {
  import opened Common
  import opened HeapSearch
  import opened MemoryState
  import opened Freeing
  import opened MemoryManager

  /** The heap starts at virtual page first.  Every page of a block records the start address
      and the size of the block.  raw says that the table has not been initialised yet. */
  datatype Table = Table(
    first: Page,
    tag: seq<nat>,
    isEmpty: seq<bool>,
    size: seq<nat>,
    last: nat,
    raw: bool)

  function Pages(t: Table): nat { |t.isEmpty| }

  function Addr(t: Table, i: nat): nat { PAGE_SIZE * (t.first + i) }

  predicate Sized(t: Table) { |t.tag| == |t.size| == |t.isEmpty| && t.last <= |t.isEmpty| }

  predicate InUse(t: Table, i: nat)
    requires Sized(t) && i < Pages(t)
  {
    !t.raw && !t.isEmpty[i]
  }

  /** Pages [s, s + k) form a block. */
  ghost predicate Block(t: Table, s: nat, k: nat)
    requires Sized(t)
  {
    && 0 < k && s + k <= Pages(t)
    && forall j | s <= j < s + k :: !t.isEmpty[j] && t.tag[j] == Addr(t, s) && t.size[j] == k * PAGE_SIZE
  }

  /** A free page carries its own address and no size, and a page in use lies in a block. */
  ghost predicate Recorded(t: Table, i: nat)
    requires Sized(t) && i < Pages(t)
  {
    if t.isEmpty[i] then t.tag[i] == Addr(t, i) && t.size[i] == 0
    else exists s: nat, k: nat :: Block(t, s, k) && s <= i < s + k
  }

  ghost predicate TableOk(t: Table) {
    && Sized(t)
    && if t.raw then t.last == 0 && forall i | 0 <= i < Pages(t) :: !t.isEmpty[i] && t.tag[i] == t.size[i] == 0
       else forall i | 0 <= i < Pages(t) :: Recorded(t, i)
  }

  /** The page file holds exactly the heap pages in use (and any other pages it likes). */
  ghost predicate Agrees(t: Table, file: map<Page, Option<Content>>)
    requires Sized(t)
  {
    forall i: nat | i < Pages(t) :: InUse(t, i) <==> t.first + i in file
  }

  /** Blocks that share a page are the same block. */
  lemma BlocksDisjoint(t: Table, s: nat, k: nat, u: nat, l: nat, i: nat)
    requires Sized(t) && Block(t, s, k) && Block(t, u, l) && s <= i < s + k && u <= i < u + l
    ensures s == u && k == l
  {
    assert t.tag[i] == Addr(t, s) == Addr(t, u);
    assert t.size[i] == k * PAGE_SIZE == l * PAGE_SIZE;
  }

  // ---------------------------------------------------------------- operations on values

  function Own(t: Table, i: nat): nat { Addr(t, i) }

  function Initialised(t: Table): Table {
    t.(tag := seq<nat>(Pages(t), i requires 0 <= i => Own(t, i)), isEmpty := seq(Pages(t), _ => true),
       size := seq<nat>(Pages(t), _ => 0), raw := false)
  }

  function Ready(t: Table): Table {
    if t.raw then Initialised(t) else t
  }

  function Choose(inside: bool, v: nat, w: nat): nat { if inside then v else w }

  /** Pages [s, s + n) recorded as part of the block of k pages from s. */
  function Marked(t: Table, s: nat, n: nat, k: nat): Table
    requires Sized(t)
  {
    t.(tag := seq<nat>(Pages(t), i requires 0 <= i < Pages(t) => Choose(s <= i < s + n, Addr(t, s), t.tag[i])),
       isEmpty := seq(Pages(t), i requires 0 <= i < Pages(t) => t.isEmpty[i] && !(s <= i < s + n)),
       size := seq<nat>(Pages(t), i requires 0 <= i < Pages(t) => Choose(s <= i < s + n, k * PAGE_SIZE, t.size[i])))
  }

  /** Pages [s, s + n) recorded as free. */
  function Cleared(t: Table, s: nat, n: nat): Table
    requires Sized(t)
  {
    t.(tag := seq<nat>(Pages(t), i requires 0 <= i < Pages(t) => Choose(s <= i < s + n, Addr(t, i), t.tag[i])),
       isEmpty := seq(Pages(t), i requires 0 <= i < Pages(t) => t.isEmpty[i] || s <= i < s + n),
       size := seq<nat>(Pages(t), i requires 0 <= i < Pages(t) => Choose(s <= i < s + n, 0, t.size[i])))
  }

  lemma MarkedPages(t: Table, s: nat, n: nat, k: nat)
    requires Sized(t)
    ensures var m := Marked(t, s, n, k);
            && Sized(m) && Pages(m) == Pages(t) && m == t.(tag := m.tag, isEmpty := m.isEmpty, size := m.size)
            && (forall j: nat :: Addr(m, j) == Addr(t, j))
            && forall j: nat | j < Pages(t) ::
                 && m.isEmpty[j] == (t.isEmpty[j] && !(s <= j < s + n))
                 && m.tag[j] == (if s <= j < s + n then Addr(t, s) else t.tag[j])
                 && m.size[j] == if s <= j < s + n then k * PAGE_SIZE else t.size[j]
  {
    var m := Marked(t, s, n, k);
    assert forall j: nat | j < Pages(t) :: m.tag[j] == Choose(s <= j < s + n, Addr(t, s), t.tag[j]);
    assert forall j: nat | j < Pages(t) :: m.size[j] == Choose(s <= j < s + n, k * PAGE_SIZE, t.size[j]);
  }

  lemma ClearedPages(t: Table, s: nat, n: nat)
    requires Sized(t)
    ensures var c := Cleared(t, s, n);
            && Sized(c) && Pages(c) == Pages(t) && c == t.(tag := c.tag, isEmpty := c.isEmpty, size := c.size)
            && (forall j: nat :: Addr(c, j) == Addr(t, j))
            && forall j: nat | j < Pages(t) ::
                 && c.isEmpty[j] == (t.isEmpty[j] || s <= j < s + n)
                 && c.tag[j] == (if s <= j < s + n then Addr(t, j) else t.tag[j])
                 && c.size[j] == if s <= j < s + n then 0 else t.size[j]
  {
    var c := Cleared(t, s, n);
    assert forall j: nat | j < Pages(t) :: c.tag[j] == Choose(s <= j < s + n, Addr(t, j), t.tag[j]);
    assert forall j: nat | j < Pages(t) :: c.size[j] == Choose(s <= j < s + n, 0, t.size[j]);
  }

  // ---------------------------------------------------------------- what they keep

  lemma InitialisedKeeps(t: Table)
    requires TableOk(t) && t.raw
    ensures TableOk(Initialised(t)) && !Initialised(t).raw
  {
    var r := Initialised(t);
    assert forall i: nat | i < Pages(t) :: r.tag[i] == Own(t, i) == Addr(r, i);
  }

  lemma BlockElsewhere(t: Table, u: Table, s: nat, k: nat)
    requires Sized(t) && Sized(u) && Pages(t) == Pages(u) && t.first == u.first && Block(t, s, k)
    requires forall j: nat | s <= j < s + k ::
               u.isEmpty[j] == t.isEmpty[j] && u.tag[j] == t.tag[j] && u.size[j] == t.size[j]
    ensures Block(u, s, k)
  {
  }

  /** A window of free pages becomes a block. */
  lemma MarkedKeeps(t: Table, s: nat, k: nat)
    requires TableOk(t) && !t.raw && Window(t.isEmpty, 0, Pages(t), k, s)
    ensures TableOk(Marked(t, s, k, k))
  {
    var m := Marked(t, s, k, k);
    MarkedPages(t, s, k, k);
    hide Marked;
    forall i: nat | i < Pages(t)
      ensures Recorded(m, i)
    {
      assert Recorded(t, i);
      if s <= i < s + k {
        assert Block(m, s, k);
      } else if !t.isEmpty[i] {
        var u: nat, l: nat :| Block(t, u, l) && u <= i < u + l;
        BlockElsewhere(t, m, u, l);
      }
    }
  }

  /** Clearing a whole block keeps the table in order. */
  lemma ClearedKeeps(t: Table, s: nat, k: nat)
    requires TableOk(t) && !t.raw && Block(t, s, k)
    ensures TableOk(Cleared(t, s, k))
  {
    var c := Cleared(t, s, k);
    ClearedPages(t, s, k);
    hide Cleared;
    forall i: nat | i < Pages(t)
      ensures Recorded(c, i)
    {
      assert Recorded(t, i);
      if !(s <= i < s + k) && !t.isEmpty[i] {
        var u: nat, l: nat :| Block(t, u, l) && u <= i < u + l;
        forall j: nat | u <= j < u + l
          ensures c.isEmpty[j] == t.isEmpty[j] && c.tag[j] == t.tag[j] && c.size[j] == t.size[j]
        {
          if s <= j < s + k { BlocksDisjoint(t, s, k, u, l, j); }
        }
        BlockElsewhere(t, c, u, l);
      }
    }
  }

  /** free takes the size from the page it is given and clears that many pages from there.
      For a page in use whose range stays in the table, this keeps the table in order exactly
      when the page starts its block. */
  lemma FreeOnlyFromStart(t: Table, i: nat, s: nat, k: nat)
    requires TableOk(t) && !t.raw && Block(t, s, k) && s <= i < s + k
    ensures TableOk(Cleared(t, i, k)) <==> i == s
  {
    var c := Cleared(t, i, k);
    if i == s {
      ClearedKeeps(t, s, k);
    } else {
      ClearedPages(t, i, k);
      assert c.isEmpty[i] && !c.isEmpty[s] && c.tag[s] == Addr(c, s) && c.size[s] == k * PAGE_SIZE;
      assert forall u: nat, l: nat :: Block(c, u, l) && u <= s < u + l ==> u == s;
      assert !Recorded(c, s);
    }
  }

  /** After any malloc of two or more pages, free of one of them but the first breaks the table:
      it clears pages beyond the block and leaves the first page's record without a block. */
  lemma FreeInside(t: Table, s: nat, k: nat, i: nat)
    requires TableOk(t) && !t.raw && Window(t.isEmpty, 0, Pages(t), k, s) && s < i < s + k
    ensures var m := Malloced(t, s, k);
            TableOk(m) && m.size[i] == k * PAGE_SIZE && !TableOk(Cleared(m, i, k))
  {
    var m := Malloced(t, s, k);
    MallocedKeeps(t, s, k);
    MarkedPages(t, s, k, k);
    hide Marked, TableOk;
    TableShape(m);
    assert Block(m, s, k);
    FreeOnlyFromStart(m, i, s, k);
  }

  /** Such a table: three pages, of which the first two are allocated and freed from the second. */
  lemma FreeSecondPage(first: Page)
    ensures var t := Table(first, [PAGE_SIZE * first, PAGE_SIZE * (first + 1), PAGE_SIZE * (first + 2)],
                           [true, true, true], [0, 0, 0], 0, false);
            && TableOk(t) && TableOk(Malloced(t, 0, 2)) && Malloced(t, 0, 2).size[1] == 2 * PAGE_SIZE
            && !TableOk(Cleared(Malloced(t, 0, 2), 1, 2))
  {
    var t := Table(first, [PAGE_SIZE * first, PAGE_SIZE * (first + 1), PAGE_SIZE * (first + 2)],
                   [true, true, true], [0, 0, 0], 0, false);
    assert Recorded(t, 0) && Recorded(t, 1) && Recorded(t, 2);
    FreeInside(t, 0, 2, 1);
  }

  predicate HeapPage(t: Table, p: Page) {
    t.first <= p < t.first + Pages(t)
  }

  /** Adding pages outside the heap to the page file, or none, keeps the agreement. */
  lemma StrangersAgree(t: Table, file: map<Page, Option<Content>>, f: map<Page, Option<Content>>, p: Page)
    requires Sized(t) && Agrees(t, file)
    requires f.Keys == file.Keys || (f.Keys == file.Keys + {p} && (p in file || !HeapPage(t, p)))
    ensures Agrees(t, f)
  {
    forall i: nat | i < Pages(t)
      ensures InUse(t, i) <==> t.first + i in f
    {
      assert InUse(t, i) <==> t.first + i in file;
      assert t.first + i in f.Keys <==> t.first + i in file.Keys;
    }
  }

  // ---------------------------------------------------------------- malloc and free

  /** What a successful malloc of k pages at s does to the table. */
  function Malloced(t: Table, s: nat, k: nat): Table
    requires Sized(t)
  {
    Marked(t, s, k, k).(last := s + k)
  }

  lemma MallocedKeeps(t: Table, s: nat, k: nat)
    requires TableOk(t) && !t.raw && Window(t.isEmpty, 0, Pages(t), k, s)
    ensures TableOk(Malloced(t, s, k))
  {
    MarkedKeeps(t, s, k);
    MarkedPages(t, s, k, k);
    var m, r := Marked(t, s, k, k), Malloced(t, s, k);
    hide Marked;
    assert r == m.(last := s + k);
    forall i: nat | i < Pages(t)
      ensures Recorded(r, i)
    {
      assert Recorded(m, i);
      if !m.isEmpty[i] {
        var u: nat, l: nat :| Block(m, u, l) && u <= i < u + l;
        BlockElsewhere(m, r, u, l);
      }
    }
  }

  /** A window of free pages lies outside the page file. */
  lemma WindowUnbacked(t: Table, file: map<Page, Option<Content>>, s: nat, k: nat)
    requires Sized(t) && Agrees(t, file) && !t.raw && Window(t.isEmpty, 0, Pages(t), k, s)
    ensures forall p | t.first + s <= p < t.first + s + k :: p !in file
  {
    forall p | t.first + s <= p < t.first + s + k
      ensures p !in file
    {
      assert !InUse(t, p - t.first);
    }
  }

  lemma MallocedInUse(t: Table, s: nat, k: nat)
    requires Sized(t) && !t.raw && s + k <= Pages(t)
    ensures var r := Malloced(t, s, k);
            && Sized(r) && Pages(r) == Pages(t) && r.first == t.first && !r.raw
            && forall i: nat | i < Pages(t) :: InUse(r, i) <==> InUse(t, i) || s <= i < s + k
  {
    MarkedPages(t, s, k, k);
    hide Marked;
  }

  lemma MallocedAgrees(t: Table, file: map<Page, Option<Content>>, s: nat, k: nat, room: nat)
    requires Sized(t) && Agrees(t, file) && !t.raw && Window(t.isEmpty, 0, Pages(t), k, s)
    requires k == 0 || |file| + k <= room
    ensures Sized(Malloced(t, s, k)) && Agrees(Malloced(t, s, k), Reserved(file, t.first + s, k, room))
  {
    hide HasRoom, Reserved, ClearedRange, Malloced, InUse, Agrees;
    MallocedInUse(t, s, k);
    RoomForAll(file, t.first + s, k, room);
    ReservedInRoom(file, t.first + s, k, room);
    AgreesWith(t, file, Malloced(t, s, k), Reserved(file, t.first + s, k, room), s, k);
  }

  lemma AgreesWith(t: Table, file: map<Page, Option<Content>>, u: Table, f: map<Page, Option<Content>>, s: nat, k: nat)
    requires Sized(t) && Sized(u) && Pages(u) == Pages(t) && u.first == t.first && Agrees(t, file)
    requires forall i: nat | i < Pages(t) :: InUse(u, i) <==> InUse(t, i) || s <= i < s + k
    requires ClearedRange(file, f, t.first + s, k)
    ensures Agrees(u, f)
  {
    hide InUse, ZeroPage;
    forall i: nat | i < Pages(u)
      ensures InUse(u, i) <==> u.first + i in f
    {
      assert InUse(t, i) <==> t.first + i in file;
    }
  }

  lemma ClearedAgrees(t: Table, file: map<Page, Option<Content>>, s: nat, n: nat)
    requires Sized(t) && Agrees(t, file)
    ensures Sized(Cleared(t, s, n)) && Agrees(Cleared(t, s, n), Outside(file, t.first + s, t.first + s + n))
  {
    ClearedPages(t, s, n);
    hide Cleared;
    var c := Cleared(t, s, n);
    forall i: nat | i < Pages(c)
      ensures InUse(c, i) <==> c.first + i in Outside(file, t.first + s, t.first + s + n)
    {
      assert InUse(t, i) <==> t.first + i in file;
    }
  }

  /** The size a page is freed with, in pages: that of its block from a block's start, and
      nothing from a free page. */
  predicate Freeable(t: Table, s: nat)
    requires Sized(t) && s < Pages(t)
  {
    t.raw || t.isEmpty[s] || t.tag[s] == Addr(t, s)
  }

  lemma FreedSize(t: Table, s: nat) returns (n: nat)
    requires TableOk(t) && s < Pages(t)
    ensures t.size[s] == n * PAGE_SIZE && (Freeable(t, s) ==> s + n <= Pages(t))
    ensures TableOk(Cleared(t, s, n)) <==> Freeable(t, s)
  {
    if t.raw || t.isEmpty[s] {
      n := 0;
      assert !t.raw ==> Recorded(t, s);
      ClearedNothing(t, s);
    } else {
      assert Recorded(t, s);
      var u: nat, l: nat :| Block(t, u, l) && u <= s < u + l;
      n := l;
      FreeOnlyFromStart(t, s, u, l);
    }
  }

  lemma ClearedNothing(t: Table, s: nat)
    requires Sized(t)
    ensures Cleared(t, s, 0) == t
  {
    ClearedPages(t, s, 0);
    assert Cleared(t, s, 0).tag == t.tag && Cleared(t, s, 0).isEmpty == t.isEmpty && Cleared(t, s, 0).size == t.size;
  }

  /** Byte b from the address lies in a page in use, of a block of k pages from the address, that
      the page file holds. */
  ghost predicate Serves(t: Table, file: map<Page, Option<Content>>, address: nat, k: nat, b: nat) {
    && Sized(t)
    && var p := (address + b) / PAGE_SIZE;
       t.first <= p < t.first + Pages(t) && p in file
       && !t.isEmpty[p - t.first] && t.tag[p - t.first] == address && t.size[p - t.first] == k * PAGE_SIZE
  }

  ghost predicate ServesAll(t: Table, file: map<Page, Option<Content>>, address: nat, k: nat, bytes: nat) {
    forall b: nat | b < bytes :: Serves(t, file, address, k, b)
  }

  /** A granted block serves every byte that was asked for. */
  lemma BlockServes(t: Table, file: map<Page, Option<Content>>, s: nat, bytes: nat)
    requires bytes + PAGE_SIZE - 1 < WORD && Sized(t) && !t.raw && s + PagesOf(bytes) <= Pages(t)
    requires Sized(Malloced(t, s, PagesOf(bytes))) && Agrees(Malloced(t, s, PagesOf(bytes)), file)
    ensures ServesAll(Malloced(t, s, PagesOf(bytes)), file, PAGE_SIZE * (t.first + s), PagesOf(bytes), bytes)
  {
    var k := PagesOf(bytes);
    PagesCover(bytes);
    MarkedPages(t, s, k, k);
    var m := Malloced(t, s, k);
    assert !m.raw && m.first == t.first && Pages(m) == Pages(t);
    hide Marked, PagesOf;
    var address := PAGE_SIZE * (t.first + s);
    forall b: nat | b < bytes
      ensures Serves(m, file, address, k, b)
    {
      PageOfByte(t.first + s, b);
      var i := s + b / PAGE_SIZE;
      assert b / PAGE_SIZE < k;
      assert InUse(m, i) <==> m.first + i in file;
    }
  }

  lemma PageOfByte(p: Page, b: nat)
    ensures (PAGE_SIZE * p + b) / PAGE_SIZE == p + b / PAGE_SIZE
  {
  }

  lemma MallocedLast(t: Table, s: nat, k: nat)
    requires Sized(t)
    ensures Malloced(t, s, k).last == s + k
  {
  }

  class Process {
    const first: Page
    const tag: array<nat>
    const isEmpty: array<bool>
    const size: array<nat>
    const kernel: Machine
    var last: nat
    var raw: bool

    ghost function T(): Table
      reads this, tag, isEmpty, size
    {
      Table(first, tag[..], isEmpty[..], size[..], last, raw)
    }

    ghost predicate Valid()
      reads this, tag, isEmpty, size, kernel, kernel.refs, kernel.ram, kernel.ws
    {
      && tag != size && kernel.refs != tag && kernel.refs != size
      && TableOk(T()) && kernel.Valid() && Agrees(T(), kernel.pageFile)
    }

    /** A process whose heap has not been used: its globals are zero and the page file holds
        no page of its heap. */
    constructor (first: Page, pages: nat, kernel: Machine)
      requires kernel.Valid() && forall p | first <= p < first + pages :: p !in kernel.pageFile
      ensures Valid() && raw && this.kernel == kernel && this.first == first && isEmpty.Length == pages
      ensures fresh(tag) && fresh(isEmpty) && fresh(size)
    {
      this.first, this.kernel := first, kernel;
      tag := new nat[pages](_ => 0);
      isEmpty := new bool[pages](_ => false);
      size := new nat[pages](_ => 0);
      last, raw := 0, true;
    }

    method Initialise()
      requires tag != size && tag.Length == size.Length == isEmpty.Length
      modifies this`raw, tag, isEmpty, size
      ensures T() == Initialised(old(T()))
      ensures forall i | 0 <= i < tag.Length ::
                tag[i] == PAGE_SIZE * (first + i) && isEmpty[i] && size[i] == 0
    {
      for i := 0 to tag.Length
        invariant forall j | 0 <= j < i :: tag[j] == PAGE_SIZE * (first + j) && isEmpty[j] && size[j] == 0
      {
        tag[i] := PAGE_SIZE * (first + i);
        isEmpty[i] := true;
        size[i] := 0;
      }
      raw := false;
      assert tag[..] == Initialised(old(T())).tag;
      assert isEmpty[..] == Initialised(old(T())).isEmpty;
      assert size[..] == Initialised(old(T())).size;
    }

    /** The marking loop of malloc. */
    method Mark(s: nat, k: nat)
      requires Sized(T()) && tag != size && s + k <= isEmpty.Length
      modifies tag, isEmpty, size
      ensures T() == Marked(old(T()), s, k, k)
    {
      ghost var t := T();
      var tmpSize, i := k * PAGE_SIZE, s;
      while 0 < tmpSize
        invariant tmpSize == (s + k - i) * PAGE_SIZE && s <= i <= s + k
        invariant forall j: nat | j < isEmpty.Length ::
                    && isEmpty[j] == (t.isEmpty[j] && !(s <= j < i))
                    && tag[j] == (if s <= j < i then Addr(t, s) else t.tag[j])
                    && size[j] == if s <= j < i then k * PAGE_SIZE else t.size[j]
      {
        tag[i] := PAGE_SIZE * (first + s);
        isEmpty[i] := false;
        size[i] := k * PAGE_SIZE;
        tmpSize := tmpSize - PAGE_SIZE;
        i := i + 1;
      }
      MarkedPages(t, s, k, k);
      assert tag[..] == Marked(t, s, k, k).tag;
      assert isEmpty[..] == Marked(t, s, k, k).isEmpty;
      assert size[..] == Marked(t, s, k, k).size;
    }

    /** The clearing loop of free. */
    method Clear(s: nat, n: nat)
      requires Sized(T()) && tag != size && s + n <= isEmpty.Length
      modifies tag, isEmpty, size
      ensures T() == Cleared(old(T()), s, n)
    {
      ghost var t := T();
      var i := s;
      while i < s + n
        invariant s <= i <= s + n
        invariant forall j: nat | j < isEmpty.Length ::
                    && isEmpty[j] == (t.isEmpty[j] || s <= j < i)
                    && tag[j] == (if s <= j < i then Addr(t, j) else t.tag[j])
                    && size[j] == if s <= j < i then 0 else t.size[j]
      {
        tag[i] := PAGE_SIZE * (first + i);
        isEmpty[i] := true;
        size[i] := 0;
        i := i + 1;
      }
      ClearedPages(t, s, n);
      assert tag[..] == Cleared(t, s, n).tag;
      assert isEmpty[..] == Cleared(t, s, n).isEmpty;
      assert size[..] == Cleared(t, s, n).size;
    }

    method Malloc(bytes: nat, bestFit: bool) returns (r: Allocation, ghost place: Option<nat>)
      requires Valid() && bytes < WORD
      modifies this, tag, isEmpty, size, kernel`pageFile
      ensures var t, k := Ready(old(T())), PagesOf(bytes);
              && TableOk(t) && Placed(t.isEmpty, t.last, k, bestFit, place)
              && match place
                 case None => r == NoSpace && T() == t && kernel.S() == old(kernel.S()) && Valid()
                 case Some(s) =>
                   && Window(t.isEmpty, 0, Pages(t), k, s)
                   && if 0 < k && kernel.fileRoom < |old(kernel.pageFile)| + k then r == Exhausted
                      else && r == At(Addr(t, s)) && T() == Malloced(t, s, k) && Valid()
                           && kernel.S() == old(kernel.S()).(pageFile :=
                                Reserved(old(kernel.pageFile), t.first + s, k, kernel.fileRoom))
      ensures RoundsUp(bytes, PagesOf(bytes))
      ensures r.At? ==> place.Some? && r.address == PAGE_SIZE * (first + place.value)
      ensures r.At? && bytes + PAGE_SIZE - 1 < WORD ==>
                ServesAll(T(), kernel.pageFile, r.address, PagesOf(bytes), bytes)
      ensures r.At? ==> last == place.value + PagesOf(bytes)
    {
      hide TableOk, Placed, Window, Malloced, Marked, Initialised, Inv, Agrees, Reserved, PagesOf, PagesUp;
      hide ServesAll, RoundsUp;
      PagesCover(bytes);
      ghost var t0 := T();
      TableShape(t0);
      if raw {
        InitialisedKeeps(t0);
        InitialisedAgrees(t0, kernel.pageFile);
        Initialise();
      }
      ghost var t, kernel0 := T(), kernel.S();
      TableShape(t);
      var k := PagesOf(bytes);
      var found := Place(isEmpty, last, k, bestFit);
      place := found;
      if found.None? { return NoSpace, place; }
      var s := found.value;
      PlacedIsWindow(t.isEmpty, t.last, k, bestFit, s);
      var ok := Grant(s, k);
      if !ok { return Exhausted, place; }
      MallocedLast(t, s, k);
      if bytes + PAGE_SIZE - 1 < WORD { BlockServes(t, kernel.pageFile, s, bytes); }
      return At(PAGE_SIZE * (first + s)), place;
    }

    /** Reserves k pages from s in the page file and records them as a block. */
    method Grant(s: nat, k: nat) returns (ok: bool)
      requires Valid() && !raw && s + k <= isEmpty.Length && Window(isEmpty[..], 0, isEmpty.Length, k, s)
      modifies this`last, tag, isEmpty, size, kernel`pageFile
      ensures ok <==> k == 0 || |old(kernel.pageFile)| + k <= kernel.fileRoom
      ensures ok ==> T() == Malloced(old(T()), s, k) && Valid()
      ensures ok ==> kernel.S() == old(kernel.S()).(pageFile :=
                                     Reserved(old(kernel.pageFile), first + s, k, kernel.fileRoom))
    {
      hide TableOk, Window, Malloced, Marked, Inv, Agrees, Reserved, PagesUp, HasRoom;
      ghost var t, kernel0 := T(), kernel.S();
      TableShape(t);
      if 0 < k { GrantAnswer(t, kernel0, s, k, kernel.fileRoom); }
      WholePages(k);
      ok := kernel.AllocateMem(first + s, k * PAGE_SIZE);
      if !ok { return; }
      GrantKeeps(t, kernel0, s, k, kernel.fileRoom);
      Mark(s, k);
      last := s + k;
    }

    /** Frees as many pages from page s of the heap as the page records, which must not lead past
        the table.  That is a block from its start and nothing from a free page; from elsewhere
        in a block table and page file still agree, but the table is no longer in order. */
    method Free(s: nat)
      requires Valid() && s < isEmpty.Length && s + size[s] / PAGE_SIZE <= isEmpty.Length
      modifies tag, isEmpty, size
      modifies kernel`pageFile, kernel`free, kernel`ptes, kernel`last, kernel`tables, kernel.refs, kernel.ws
      ensures Valid() <==> old(Freeable(T(), s))
      ensures Sized(T()) && kernel.Valid() && Agrees(T(), kernel.pageFile)
      ensures T() == Cleared(old(T()), s, old(size[s]) / PAGE_SIZE)
      ensures kernel.S() == Freed(old(kernel.S()), first + s, old(size[s]) / PAGE_SIZE, old(size[s]) / PAGE_SIZE)
    {
      hide TableOk, Inv, Agrees, Freed, Cleared, Outside, Freeable, PagesUp;
      ghost var t, kernel0 := T(), kernel.S();
      TableShape(t);
      var bytes := size[s];
      ghost var n := FreedSize(t, s);
      WholePages(n);
      FreedFile(kernel0, first + s, n);
      ClearedAgrees(t, kernel0.pageFile, s, n);
      kernel.FreeMem(first + s, bytes);
      Clear(s, bytes / PAGE_SIZE);
    }
  }

  /** For a window of free pages the last answer of the page file speaks for all. */
  lemma GrantAnswer(t: Table, m: State, s: nat, k: nat, room: nat)
    requires Sized(t) && Agrees(t, m.pageFile) && !t.raw && Window(t.isEmpty, 0, Pages(t), k, s) && 0 < k
    ensures t.first + s + k - 1 in Reserved(m.pageFile, t.first + s, k, room) <==> |m.pageFile| + k <= room
  {
    hide Agrees, Reserved, Window, HasRoom;
    WindowUnbacked(t, m.pageFile, s, k);
    LastAnswer(m.pageFile, t.first + s, k, room);
    RoomIfNew(m.pageFile, t.first + s, k, room);
  }

  /** With room, the table with the block and the memory with its copies are in order and agree. */
  lemma GrantKeeps(t: Table, m: State, s: nat, k: nat, room: nat)
    requires TableOk(t) && Sized(t) && Inv(m) && Agrees(t, m.pageFile) && !t.raw
    requires Window(t.isEmpty, 0, Pages(t), k, s) && (k == 0 || |m.pageFile| + k <= room)
    ensures var u, n := Malloced(t, s, k), m.(pageFile := Reserved(m.pageFile, t.first + s, k, room));
            && u == Marked(t, s, k, k).(last := s + k)
            && TableOk(u) && Sized(u) && Inv(n) && Agrees(u, n.pageFile)
  {
    hide TableOk, Inv, Agrees, Reserved, Window, HasRoom, Marked;
    RoomForAll(m.pageFile, t.first + s, k, room);
    WindowUnbacked(t, m.pageFile, s, k);
    Unbacked(m, t.first + s, k);
    ReservedKeeps(m, t.first + s, k, room);
    MallocedKeeps(t, s, k);
    MallocedAgrees(t, m.pageFile, s, k, room);
  }

  /** Pages outside the page file are not resident. */
  lemma Unbacked(s: State, lo: Page, k: nat)
    requires Inv(s) && forall p | lo <= p < lo + k :: p !in s.pageFile
    ensures forall p | lo <= p < lo + k :: p !in s.ptes
  {
  }

  lemma TableShape(t: Table)
    requires TableOk(t)
    ensures Sized(t)
  {
  }

  lemma InitialisedAgrees(t: Table, file: map<Page, Option<Content>>)
    requires Sized(t) && t.raw && Agrees(t, file)
    ensures Sized(Initialised(t)) && Agrees(Initialised(t), file)
  {
    forall i: nat | i < Pages(t)
      ensures InUse(Initialised(t), i) <==> t.first + i in file
    {
      assert !InUse(t, i);
    }
  }

  lemma WholePages(k: nat)
    ensures PagesUp(k * PAGE_SIZE) == k && k * PAGE_SIZE / PAGE_SIZE == k
  {
  }

  lemma FreedFile(s: State, lo: Page, n: nat)
    requires Inv(s)
    ensures s.ws != [] && Freed(s, lo, n, n).pageFile == Outside(s.pageFile, lo, lo + n)
  {
    FreedExact(s, lo, n, n);
  }
}
