/**
 malloc.c over the page allocator: blocks of seven sizes are cut from one-page arenas, a larger
 block gets pages of its own. Addresses count from the base of the page pool, and a null pointer is
 None. A run is any sequence of calls, made one at a time, in which clients free and write only what
 they hold; other clients of the page allocator come and go between the calls.
 */
module Malloc {
  import opened Common
  import opened Bitmap

  // ---------------------------------------------------------------- descriptors

  /** The block sizes that malloc_init() sets up. */
  function Size(d: nat): nat
    requires d < 7
  {
    if d == 0 then 16 else if d == 1 then 32 else if d == 2 then 64 else if d == 3 then 128
    else if d == 4 then 256 else if d == 5 then 512 else 1024
  }

  /** blocks_per_arena: what a page holds after the 12 bytes of struct arena. */
  function Per(d: nat): nat
    requires d < 7
  {
    4084 / Size(d)
  }

  /** The smallest descriptor whose blocks are large enough; 7 if there is none. */
  function DescFor(size: nat): (d: nat)
    ensures d <= 7
    ensures d < 7 ==> size <= Size(d)
    ensures forall e :: 0 <= e < d ==> Size(e) < size
  {
    if size <= 16 then 0 else if size <= 32 then 1 else if size <= 64 then 2 else if size <= 128 then 3
    else if size <= 256 then 4 else if size <= 512 then 5 else if size <= 1024 then 6 else 7
  }

  /** pg_no(). */
  function Page(a: nat): nat {
    a / 4096
  }

  /** A big block starts after the header in its first page. */
  function BigAddr(p: nat): nat {
    4096 * p + 12
  }

  /** arena_to_block(). */
  function Blk(p: nat, d: nat, i: nat): nat
    requires d < 7
  {
    4096 * p + 12 + i * Size(d)
  }

  /** Which block of its page an address is in. */
  function Idx(a: nat, d: nat): nat
    requires d < 7 && a % 4096 >= 12
  {
    (a % 4096 - 12) / Size(d)
  }

  /** The alignment that block_to_arena() asserts, and the block is in the page. */
  predicate IsBlk(a: nat, d: nat)
    requires d < 7
  {
    a % 4096 >= 12 && (a % 4096 - 12) % Size(d) == 0 && Idx(a, d) < Per(d)
  }

  lemma SizeFacts(d: nat)
    requires d < 7
    ensures 16 <= Size(d) <= 1024 && 3 <= Per(d) <= 255 && 12 + Per(d) * Size(d) <= 4096
  {
  }

  /** A block of a page lies in the page, after the header, and block_to_arena() finds its way back. */
  lemma BlkFacts(p: nat, d: nat, i: nat)
    requires d < 7 && i < Per(d)
    ensures var a := Blk(p, d, i);
      Page(a) == p && a % 4096 == 12 + i * Size(d) && a % 4096 + Size(d) <= 4096 && IsBlk(a, d) && Idx(a, d) == i
  {
    SizeFacts(d);
    MulLe(i + 1, Per(d), Size(d));
    assert (i + 1) * Size(d) == i * Size(d) + Size(d);
    var k := i * Size(d);
    DivUnique(k, i, Size(d), 0);
    hide Size, Per;
  }

  lemma IsBlkFacts(a: nat, d: nat)
    requires d < 7 && IsBlk(a, d)
    ensures a == Blk(Page(a), d, Idx(a, d)) && a % 4096 + Size(d) <= 4096
  {
    var i := Idx(a, d);
    assert a % 4096 - 12 == i * Size(d);
    SizeFacts(d);
    MulLe(i + 1, Per(d), Size(d));
    assert (i + 1) * Size(d) == i * Size(d) + Size(d);
    hide Size, Per;
  }

  /** Every byte of a block has the block's page and index. */
  lemma InBlock(a: nat, d: nat, x: nat)
    requires d < 7 && IsBlk(a, d) && a <= x < a + Size(d)
    ensures Page(x) == Page(a) && x % 4096 >= 12 && Idx(x, d) == Idx(a, d)
  {
    IsBlkFacts(a, d);
    var i := Idx(a, d);
    assert x % 4096 - 12 == i * Size(d) + (x - a);
    DivUnique(x % 4096 - 12, i, Size(d), x - a);
  }

  /** Two blocks of an arena that share a byte are one. */
  lemma BlocksApart(a: nat, b: nat, d: nat, x: nat)
    requires d < 7 && IsBlk(a, d) && IsBlk(b, d) && a <= x < a + Size(d) && b <= x < b + Size(d)
    ensures a == b
  {
    InBlock(a, d, x);
    InBlock(b, d, x);
    IsBlkFacts(a, d);
    IsBlkFacts(b, d);
  }

  // ---------------------------------------------------------------- the blocks of an arena

  predicate SlotOf(b: nat, p: nat, d: nat)
    requires d < 7
  {
    Page(b) == p && IsBlk(b, d)
  }

  /** The blocks of an arena in page p, in the order in which malloc() lists them. */
  function Cut(p: nat, d: nat, n: nat): seq<nat>
    requires d < 7
  {
    if n == 0 then [] else Cut(p, d, n - 1) + [Blk(p, d, n - 1)]
  }

  lemma {:induction false} CutIs(p: nat, d: nat, n: nat)
    requires d < 7 && n <= Per(d)
    ensures |Cut(p, d, n)| == n && NoDup(Cut(p, d, n))
    ensures forall b :: b in Cut(p, d, n) <==> SlotOf(b, p, d) && Idx(b, d) < n
  {
    if n > 0 {
      CutIs(p, d, n - 1);
      BlkFacts(p, d, n - 1);
      var last := Blk(p, d, n - 1);
      forall b | SlotOf(b, p, d) && Idx(b, d) == n - 1 ensures b == last {
        IsBlkFacts(b, d);
      }
      hide Blk, Idx, IsBlk, Per;
    }
  }

  lemma CutAll(p: nat, d: nat)
    requires d < 7
    ensures |Cut(p, d, Per(d))| == Per(d) && NoDup(Cut(p, d, Per(d)))
    ensures forall b :: b in Cut(p, d, Per(d)) <==> SlotOf(b, p, d)
  {
    CutIs(p, d, Per(d));
  }

  /** The elements of a free list that are in page p. */
  function FreeAt(q: seq<nat>, p: nat): set<nat> {
    set b | b in q && Page(b) == p
  }

  /** An arena has at most Per(d) free blocks, and has that many exactly if all are free. */
  lemma FreeAtMost(q: seq<nat>, p: nat, d: nat)
    requires d < 7 && forall b :: b in q && Page(b) == p ==> IsBlk(b, d)
    ensures |FreeAt(q, p)| <= Per(d)
    ensures |FreeAt(q, p)| == Per(d) <==> forall b :: SlotOf(b, p, d) ==> b in q
  {
    CutAll(p, d);
    var all := Cut(p, d, Per(d));
    NoDupSize(all);
    SubsetSize(FreeAt(q, p), ToSet(all));
    hide Cut, IsBlk, Per;
    if forall b :: SlotOf(b, p, d) ==> b in q {
      assert FreeAt(q, p) == ToSet(all);
    }
    if |FreeAt(q, p)| == Per(d) {
      forall b | SlotOf(b, p, d) ensures b in q {
        assert b in ToSet(all);
      }
    }
  }

  // ---------------------------------------------------------------- state

  /** What occupies pages: an arena of descriptor "desc", a big block, or another client of the page
      allocator. The first two have a struct arena in their first page. */
  datatype Chunk = Small(desc: nat, freeCnt: nat) | Big(pages: nat) | Foreign(pages: nat)

  /** The page allocator's map, the chunks by first page, the free list of each descriptor, and the
      requested size of every block that a client holds. */
  datatype Heap = Heap(used: seq<bool>, chunks: map<nat, Chunk>, free: seq<seq<nat>>, live: map<nat, nat>)

  function Pages(c: Chunk): nat {
    if c.Small? then 1 else c.pages
  }

  /** What the page allocator has handed out is exactly the chunks, and they are disjoint. */
  ghost predicate PageInv(h: Heap) {
    && (forall p :: p in h.chunks ==> Pages(h.chunks[p]) > 0 && AllAre(h.used, p, Pages(h.chunks[p]), true))
    && (forall p, q :: p in h.chunks && q in h.chunks && p < q ==> p + Pages(h.chunks[p]) <= q)
    && (forall x: nat :: x < |h.used| && h.used[x] ==> Occupied(h.chunks, x))
  }

  ghost predicate Occupied(chunks: map<nat, Chunk>, x: nat) {
    exists p :: p in chunks && p <= x < p + Pages(chunks[p])
  }

  predicate InArena(chunks: map<nat, Chunk>, b: nat, d: nat)
    requires d < 7
  {
    Page(b) in chunks && chunks[Page(b)].Small? && chunks[Page(b)].desc == d && IsBlk(b, d)
  }

  /** A free list has no duplicates, and holds only blocks of its descriptor's arenas. */
  ghost predicate ListInv(h: Heap) {
    |h.free| == 7 && forall d :: 0 <= d < 7 ==> NoDup(h.free[d]) && forall b :: b in h.free[d] ==> InArena(h.chunks, b, d)
  }

  /** free_cnt is the number of the arena's blocks on the free list, and each block of the arena is
      either there or held by a client. */
  ghost predicate ArenaInv(h: Heap)
    requires |h.free| == 7
  {
    forall p :: p in h.chunks && h.chunks[p].Small? ==> ArenaOk(h, p, h.chunks[p].desc, h.chunks[p].freeCnt)
  }

  ghost predicate ArenaOk(h: Heap, p: nat, d: nat, cnt: nat)
    requires |h.free| == 7
  {
    && d < 7 && cnt == |FreeAt(h.free[d], p)|
    && forall b :: SlotOf(b, p, d) ==> (b in h.free[d] <==> b !in h.live)
  }

  /** The bytes a client may use. */
  function Capacity(h: Heap, a: nat): nat
    requires Page(a) in h.chunks
  {
    match h.chunks[Page(a)]
    case Small(d, _) => if d < 7 then Size(d) else 0
    case Big(n) => if n > 0 then 4096 * n - 12 else 0
    case Foreign(_) => 0
  }

  ghost predicate Held(h: Heap, a: nat, size: nat) {
    && Page(a) in h.chunks && 0 < size <= Capacity(h, a)
    && match h.chunks[Page(a)]
       case Small(d, _) => d < 7 && IsBlk(a, d)
       case Big(_) => a % 4096 == 12
       case Foreign(_) => false
  }

  ghost predicate LiveInv(h: Heap) {
    && (forall a :: a in h.live ==> Held(h, a, h.live[a]))
    && (forall p :: p in h.chunks && h.chunks[p].Big? ==> BigAddr(p) in h.live)
  }

  ghost predicate Core(h: Heap) {
    PageInv(h) && ListInv(h) && ArenaInv(h) && LiveInv(h)
  }

  /** Every arena has a block in use. */
  ghost predicate NoIdle(h: Heap) {
    forall p :: p in h.chunks && h.chunks[p].Small? ==> NotIdle(h.chunks[p])
  }

  predicate NotIdle(c: Chunk) {
    c.Small? ==> c.desc < 7 && c.freeCnt < Per(c.desc)
  }

  ghost predicate Inv(h: Heap) {
    Core(h) && NoIdle(h)
  }

  // ---------------------------------------------------------------- page level steps

  /** palloc_get_multiple() for a new chunk. */
  function AddChunk(h: Heap, p: nat, c: Chunk): Heap
    requires p + Pages(c) <= |h.used|
  {
    h.(used := Marked(h.used, p, Pages(c), true), chunks := h.chunks[p := c])
  }

  /** palloc_free_multiple() of a chunk. */
  function DropChunk(h: Heap, p: nat): Heap
    requires p in h.chunks && p + Pages(h.chunks[p]) <= |h.used|
  {
    h.(used := Marked(h.used, p, Pages(h.chunks[p]), false), chunks := h.chunks - {p})
  }

  lemma FreePagesUnoccupied(h: Heap, p: nat, n: nat, q: nat)
    requires PageInv(h) && AllAre(h.used, p, n, false) && q in h.chunks && n > 0
    ensures p + n <= q || q + Pages(h.chunks[q]) <= p
  {
    var x := if p < q then q else p;
    var used := x < |h.used| && h.used[x];
  }

  lemma AddPages(h: Heap, p: nat, c: Chunk)
    requires PageInv(h) && Pages(c) > 0 && AllAre(h.used, p, Pages(c), false)
    ensures p !in h.chunks && PageInv(AddChunk(h, p, c))
  {
    var g := AddChunk(h, p, c);
    forall q | q in h.chunks ensures p + Pages(c) <= q || q + Pages(h.chunks[q]) <= p {
      FreePagesUnoccupied(h, p, Pages(c), q);
    }
    assert forall q :: q in h.chunks ==> q in g.chunks && g.chunks[q] == h.chunks[q];
    forall x: nat | x < |g.used| && g.used[x] ensures Occupied(g.chunks, x) {
      if p <= x < p + Pages(c) {
        assert p in g.chunks;
      } else {
        var q :| q in h.chunks && q <= x < q + Pages(h.chunks[q]);
        assert q in g.chunks;
      }
    }
  }

  lemma DropPages(h: Heap, p: nat)
    requires PageInv(h) && p in h.chunks
    ensures PageInv(DropChunk(h, p))
  {
    var g := DropChunk(h, p);
    forall q | q in g.chunks ensures AllAre(g.used, q, Pages(g.chunks[q]), true) {
      assert q + Pages(h.chunks[q]) <= p || p + Pages(h.chunks[p]) <= q;
    }
    forall x: nat | x < |g.used| && g.used[x] ensures Occupied(g.chunks, x) {
      var q :| q in h.chunks && q <= x < q + Pages(h.chunks[q]);
      assert q in g.chunks;
    }
  }

  /** The page map depends on the chunks' pages alone. */
  lemma PagesFrame(h: Heap, g: Heap)
    requires PageInv(h) && g.used == h.used && g.chunks.Keys == h.chunks.Keys
    requires forall p :: p in h.chunks ==> Pages(g.chunks[p]) == Pages(h.chunks[p])
    ensures PageInv(g)
  {
    forall x: nat | x < |g.used| && g.used[x] ensures Occupied(g.chunks, x) {
      var q :| q in h.chunks && q <= x < q + Pages(h.chunks[q]);
      assert q in g.chunks;
    }
  }

  // ---------------------------------------------------------------- arena level steps

  /** malloc() cuts a new arena into blocks, all of them free. */
  function NewArena(h: Heap, d: nat, p: nat): Heap
    requires d < 7 && |h.free| == 7 && p < |h.used|
  {
    AddChunk(h, p, Small(d, Per(d))).(free := h.free[d := Cut(p, d, Per(d))])
  }

  predicate CanPop(h: Heap, d: nat) {
    && d < 7 && |h.free| == 7 && h.free[d] != []
    && var p := Page(h.free[d][0]);
       p in h.chunks && h.chunks[p].Small? && h.chunks[p].freeCnt > 0
  }

  /** malloc() hands out the first free block. */
  function Pop(h: Heap, d: nat, size: nat): Heap
    requires CanPop(h, d)
  {
    var b := h.free[d][0];
    h.(free := h.free[d := h.free[d][1..]],
       chunks := h.chunks[Page(b) := Small(d, h.chunks[Page(b)].freeCnt - 1)],
       live := h.live[b := size])
  }

  predicate CanPush(h: Heap, a: nat) {
    && |h.free| == 7 && Page(a) in h.chunks
    && var c := h.chunks[Page(a)];
       c.Small? && c.desc < 7
  }

  /** free() puts a block back. */
  function Push(h: Heap, a: nat): Heap
    requires CanPush(h, a)
  {
    var c := h.chunks[Page(a)];
    h.(free := h.free[c.desc := [a] + h.free[c.desc]],
       chunks := h.chunks[Page(a) := Small(c.desc, c.freeCnt + 1)],
       live := h.live - {a})
  }

  /** A free list without the blocks of page p. */
  function Purge(q: seq<nat>, p: nat): (r: seq<nat>)
    ensures forall b :: b in r <==> b in q && Page(b) != p
  {
    if q == [] then []
    else if Page(q[|q| - 1]) == p then Purge(q[..|q| - 1], p)
    else Purge(q[..|q| - 1], p) + [q[|q| - 1]]
  }

  /** free() returns an arena none of whose blocks is in use. */
  function DropArena(h: Heap, p: nat): Heap
    requires p in h.chunks && p < |h.used| && h.chunks[p].Small? && h.chunks[p].desc < 7 && |h.free| == 7
  {
    var d := h.chunks[p].desc;
    DropChunk(h, p).(free := h.free[d := Purge(h.free[d], p)])
  }

  lemma {:induction false} PurgeNoDup(q: seq<nat>, p: nat)
    requires NoDup(q)
    ensures NoDup(Purge(q, p))
    decreases |q|
  {
    if q != [] {
      PurgeNoDup(q[..|q| - 1], p);
      assert q[|q| - 1] !in q[..|q| - 1];
    }
  }

  // New arena.

  lemma NewArenaLists(h: Heap, d: nat, p: nat)
    requires ListInv(h) && d < 7 && p < |h.used| && p !in h.chunks
    ensures ListInv(NewArena(h, d, p))
  {
    CutAll(p, d);
    hide Cut, IsBlk, Per;
  }

  lemma NewArenaArenas(h: Heap, d: nat, p: nat)
    requires ListInv(h) && ArenaInv(h) && LiveInv(h) && d < 7 && h.free[d] == [] && p < |h.used| && p !in h.chunks
    ensures ArenaInv(NewArena(h, d, p))
  {
    var g := NewArena(h, d, p);
    var q := Cut(p, d, Per(d));
    CutAll(p, d);
    NoDupSize(q);
    hide Cut, IsBlk, Per, LiveInv;
    assert FreeAt(q, p) == ToSet(q);
    forall b | Page(b) == p ensures b !in h.live {
      NoneHeld(h, b);
    }
    forall r | r in g.chunks && g.chunks[r].Small? ensures ArenaOk(g, r, g.chunks[r].desc, g.chunks[r].freeCnt) {
      if r != p {
        assert ArenaOk(h, r, h.chunks[r].desc, h.chunks[r].freeCnt);
        assert h.chunks[r].desc == d ==> FreeAt(q, r) == FreeAt(h.free[d], r) == {};
      }
    }
  }

  lemma NoneHeld(h: Heap, b: nat)
    requires LiveInv(h) && Page(b) !in h.chunks
    ensures b !in h.live
  {
  }

  /** Blocks that clients hold stay theirs when other pages come and go. */
  lemma HeldFrame(h: Heap, g: Heap, a: nat, size: nat)
    requires Held(h, a, size) && Page(a) in g.chunks
    requires var c, k := h.chunks[Page(a)], g.chunks[Page(a)]; k == c || (k.Small? && c.Small? && k.desc == c.desc)
    ensures Held(g, a, size)
  {
  }

  lemma AddLive(h: Heap, g: Heap, p: nat, c: Chunk)
    requires LiveInv(h) && p !in h.chunks && g.chunks == h.chunks[p := c] && g.live == h.live && !c.Big?
    ensures LiveInv(g)
  {
    forall a | a in g.live ensures Held(g, a, g.live[a]) {
      HeldFrame(h, g, a, h.live[a]);
    }
  }

  lemma NewArenaCore(h: Heap, d: nat, p: nat)
    requires Core(h) && d < 7 && h.free[d] == [] && p < |h.used| && !h.used[p]
    ensures Core(NewArena(h, d, p))
  {
    var c := Small(d, Per(d));
    AddPages(h, p, c);
    NewArenaLists(h, d, p);
    NewArenaArenas(h, d, p);
    hide ListInv, ArenaInv, LiveInv, PageInv;
    AddLive(h, NewArena(h, d, p), p, c);
    PagesFrame(AddChunk(h, p, c), NewArena(h, d, p));
  }

  // Pop.

  lemma PopReady(h: Heap, d: nat)
    requires ListInv(h) && ArenaInv(h) && d < 7 && h.free[d] != []
    ensures CanPop(h, d) && InArena(h.chunks, h.free[d][0], d)
  {
    var b := h.free[d][0];
    assert InArena(h.chunks, b, d);
    var p := Page(b);
    assert ArenaOk(h, p, d, h.chunks[p].freeCnt);
    assert b in FreeAt(h.free[d], p);
  }

  lemma TailElems(q: seq<nat>)
    requires NoDup(q) && q != []
    ensures NoDup(q[1..]) && forall b :: b in q[1..] <==> b in q && b != q[0]
  {
    forall b | b in q && b != q[0] ensures b in q[1..] {
      var i :| 0 <= i < |q| && q[i] == b;
      assert q[1..][i - 1] == b;
    }
  }

  lemma PopLists(h: Heap, d: nat, size: nat)
    requires ListInv(h) && CanPop(h, d)
    ensures ListInv(Pop(h, d, size))
  {
    TailElems(h.free[d]);
    assert InArena(h.chunks, h.free[d][0], d);
    hide IsBlk;
  }

  lemma PopArenas(h: Heap, d: nat, size: nat)
    requires ListInv(h) && ArenaInv(h) && CanPop(h, d)
    ensures ArenaInv(Pop(h, d, size))
  {
    var g := Pop(h, d, size);
    var b := h.free[d][0];
    TailElems(h.free[d]);
    assert InArena(h.chunks, b, d);
    hide IsBlk;
    forall r | r in g.chunks && g.chunks[r].Small? ensures ArenaOk(g, r, g.chunks[r].desc, g.chunks[r].freeCnt) {
      assert ArenaOk(h, r, h.chunks[r].desc, h.chunks[r].freeCnt);
      var e := h.chunks[r].desc;
      if r == Page(b) {
        assert FreeAt(g.free[d], r) == FreeAt(h.free[d], r) - {b};
      } else {
        assert FreeAt(g.free[e], r) == FreeAt(h.free[e], r);
      }
    }
  }

  lemma PopLive(h: Heap, d: nat, size: nat)
    requires ListInv(h) && LiveInv(h) && CanPop(h, d) && 0 < size <= Size(d)
    ensures LiveInv(Pop(h, d, size))
  {
    var b := h.free[d][0];
    assert InArena(h.chunks, b, d);
    hide IsBlk, Size;
  }

  lemma PopCore(h: Heap, d: nat, size: nat)
    requires Core(h) && d < 7 && h.free[d] != [] && 0 < size <= Size(d)
    ensures CanPop(h, d) && h.free[d][0] !in h.live && Core(Pop(h, d, size))
  {
    PopReady(h, d);
    PopLists(h, d, size);
    PopArenas(h, d, size);
    PopLive(h, d, size);
    var b := h.free[d][0];
    assert ArenaOk(h, Page(b), d, h.chunks[Page(b)].freeCnt);
    hide ListInv, ArenaInv, LiveInv, PageInv, Size;
    PagesFrame(h, Pop(h, d, size));
  }

  // Push.

  lemma PushLists(h: Heap, a: nat)
    requires ListInv(h) && ArenaInv(h) && CanPush(h, a) && IsBlk(a, h.chunks[Page(a)].desc) && a in h.live
    ensures ListInv(Push(h, a)) && a !in h.free[h.chunks[Page(a)].desc]
  {
    var c := h.chunks[Page(a)];
    assert ArenaOk(h, Page(a), c.desc, c.freeCnt);
    assert SlotOf(a, Page(a), c.desc);
    hide IsBlk;
  }

  lemma PushArenas(h: Heap, a: nat)
    requires CanPush(h, a) && ArenaInv(h) && a !in h.free[h.chunks[Page(a)].desc]
    ensures ArenaInv(Push(h, a))
  {
    var g := Push(h, a);
    var d := h.chunks[Page(a)].desc;
    hide IsBlk, Page;
    forall r | r in g.chunks && g.chunks[r].Small? ensures ArenaOk(g, r, g.chunks[r].desc, g.chunks[r].freeCnt) {
      assert ArenaOk(h, r, h.chunks[r].desc, h.chunks[r].freeCnt);
      var e := h.chunks[r].desc;
      if r == Page(a) {
        assert FreeAt(g.free[d], r) == FreeAt(h.free[d], r) + {a};
      } else {
        assert FreeAt(g.free[e], r) == FreeAt(h.free[e], r);
      }
    }
  }

  lemma PushLive(h: Heap, a: nat)
    requires LiveInv(h) && CanPush(h, a)
    ensures LiveInv(Push(h, a))
  {
    var g := Push(h, a);
    forall b | b in g.live ensures Held(g, b, g.live[b]) {
      assert Held(h, b, h.live[b]);
      HeldFrame(h, g, b, h.live[b]);
    }
    hide Held;
    forall p | p in g.chunks && g.chunks[p].Big? ensures BigAddr(p) in g.live {
      assert p in h.chunks && h.chunks[p].Big?;
      BigAddress(p);
    }
  }

  lemma BigAddress(p: nat)
    ensures Page(BigAddr(p)) == p && BigAddr(p) % 4096 == 12
  {
  }

  lemma PushCore(h: Heap, a: nat)
    requires Core(h) && a in h.live && h.chunks[Page(a)].Small?
    ensures CanPush(h, a) && Core(Push(h, a))
    ensures Push(h, a).chunks[Page(a)].freeCnt <= Per(h.chunks[Page(a)].desc)
  {
    assert Held(h, a, h.live[a]);
    PushLists(h, a);
    PushArenas(h, a);
    PushLive(h, a);
    hide LiveInv, PageInv, IsBlk, Per;
    PagesFrame(h, Push(h, a));
    CountAtMost(Push(h, a), Page(a));
  }

  lemma CountAtMost(h: Heap, p: nat)
    requires ListInv(h) && ArenaInv(h) && p in h.chunks && h.chunks[p].Small?
    ensures var c := h.chunks[p];
      && c.desc < 7 && c.freeCnt <= Per(c.desc)
      && (c.freeCnt == Per(c.desc) <==> forall b :: b in h.live ==> !SlotOf(b, p, c.desc))
  {
    var c := h.chunks[p];
    assert ArenaOk(h, p, c.desc, c.freeCnt);
    forall b | b in h.free[c.desc] && Page(b) == p ensures IsBlk(b, c.desc) {
      assert InArena(h.chunks, b, c.desc);
    }
    hide IsBlk, Per;
    FreeAtMost(h.free[c.desc], p, c.desc);
  }

  // Drop.

  lemma DropLists(h: Heap, p: nat)
    requires ListInv(h) && p in h.chunks && p < |h.used| && h.chunks[p].Small? && h.chunks[p].desc < 7
    ensures ListInv(DropArena(h, p))
  {
    var g := DropArena(h, p);
    PurgeNoDup(h.free[h.chunks[p].desc], p);
    hide IsBlk;
    forall d, b | 0 <= d < 7 && b in g.free[d] ensures InArena(g.chunks, b, d) {
      assert InArena(h.chunks, b, d);
    }
  }

  lemma DropArenas(h: Heap, p: nat)
    requires |h.free| == 7 && ArenaInv(h) && p in h.chunks && p < |h.used| && h.chunks[p].Small? && h.chunks[p].desc < 7
    ensures ArenaInv(DropArena(h, p))
  {
    var g := DropArena(h, p);
    hide IsBlk;
    forall r | r in g.chunks && g.chunks[r].Small? ensures ArenaOk(g, r, g.chunks[r].desc, g.chunks[r].freeCnt) {
      assert ArenaOk(h, r, h.chunks[r].desc, h.chunks[r].freeCnt);
      var e := h.chunks[r].desc;
      assert FreeAt(g.free[e], r) == FreeAt(h.free[e], r);
    }
  }

  lemma DropLive(h: Heap, g: Heap, p: nat)
    requires LiveInv(h) && p in h.chunks && g.chunks == h.chunks - {p} && g.live == h.live
    requires forall a :: a in h.live ==> Page(a) != p
    ensures LiveInv(g)
  {
    forall a | a in g.live ensures Held(g, a, g.live[a]) {
      HeldFrame(h, g, a, h.live[a]);
    }
  }

  lemma DropCore(h: Heap, p: nat)
    requires Core(h) && p in h.chunks && h.chunks[p].Small? && forall a :: a in h.live ==> Page(a) != p
    ensures p < |h.used| && h.chunks[p].desc < 7 && Core(DropArena(h, p))
  {
    assert ArenaOk(h, p, h.chunks[p].desc, h.chunks[p].freeCnt);
    DropPages(h, p);
    DropLists(h, p);
    DropArenas(h, p);
    hide ListInv, ArenaInv, LiveInv, IsBlk;
    DropLive(h, DropArena(h, p), p);
    PagesFrame(DropChunk(h, p), DropArena(h, p));
  }

  // Big blocks and other clients' pages.

  /** A change of chunks that are not arenas leaves lists and arenas alone. */
  lemma ListsFrame(h: Heap, g: Heap)
    requires ListInv(h) && ArenaInv(h) && g.free == h.free
    requires forall p :: (p in h.chunks && h.chunks[p].Small?) || (p in g.chunks && g.chunks[p].Small?) ==>
      p in h.chunks && p in g.chunks && g.chunks[p] == h.chunks[p]
    requires forall p, b :: p in h.chunks && h.chunks[p].Small? && Page(b) == p ==> (b in g.live <==> b in h.live)
    ensures ListInv(g) && ArenaInv(g)
  {
    hide IsBlk;
    forall d, b | 0 <= d < 7 && b in g.free[d] ensures InArena(g.chunks, b, d) {
      assert InArena(h.chunks, b, d);
    }
    forall p | p in g.chunks && g.chunks[p].Small? ensures ArenaOk(g, p, g.chunks[p].desc, g.chunks[p].freeCnt) {
      assert ArenaOk(h, p, h.chunks[p].desc, h.chunks[p].freeCnt);
    }
  }

  lemma AddForeign(h: Heap, p: nat, n: nat)
    requires Core(h) && n > 0 && AllAre(h.used, p, n, false)
    ensures Core(AddChunk(h, p, Foreign(n)))
  {
    var g := AddChunk(h, p, Foreign(n));
    AddPages(h, p, Foreign(n));
    assert |h.free| == 7;
    hide AllAre, PageInv, LiveInv, ListInv, ArenaInv;
    AddLive(h, g, p, Foreign(n));
    ListsFrame(h, g);
  }

  lemma DropForeign(h: Heap, p: nat)
    requires Core(h) && p in h.chunks && h.chunks[p].Foreign?
    ensures p + Pages(h.chunks[p]) <= |h.used| && Core(DropChunk(h, p))
  {
    var g := DropChunk(h, p);
    DropPages(h, p);
    assert forall a :: a in h.live ==> Held(h, a, h.live[a]);
    assert forall a :: a in h.live ==> Page(a) != p;
    assert |h.free| == 7;
    hide AllAre, PageInv, LiveInv, ListInv, ArenaInv, Held;
    DropLive(h, g, p);
    ListsFrame(h, g);
  }

  function AddBig(h: Heap, p: nat, n: nat, size: nat): Heap
    requires p + n <= |h.used|
  {
    AddChunk(h, p, Big(n)).(live := h.live[BigAddr(p) := size])
  }

  lemma AddBigLive(h: Heap, g: Heap, p: nat, n: nat, size: nat)
    requires LiveInv(h) && p !in h.chunks && 0 < n && 0 < size <= 4096 * n - 12
    requires g.chunks == h.chunks[p := Big(n)] && g.live == h.live[BigAddr(p) := size]
    ensures LiveInv(g)
  {
    var a := BigAddr(p);
    assert Page(a) == p && a % 4096 == 12;
    forall b | b in g.live ensures Held(g, b, g.live[b]) {
      if b != a {
        HeldFrame(h, g, b, h.live[b]);
      }
    }
  }

  lemma AddBigCore(h: Heap, p: nat, n: nat, size: nat)
    requires Core(h) && n > 0 && AllAre(h.used, p, n, false) && 0 < size <= 4096 * n - 12
    ensures BigAddr(p) !in h.live && Core(AddBig(h, p, n, size))
  {
    var g := AddBig(h, p, n, size);
    AddPages(h, p, Big(n));
    assert Page(BigAddr(p)) == p;
    assert |h.free| == 7;
    hide AllAre, PageInv, LiveInv, ListInv, ArenaInv;
    NoneHeld(h, BigAddr(p));
    AddBigLive(h, g, p, n, size);
    PagesFrame(AddChunk(h, p, Big(n)), g);
    ListsFrame(h, g);
  }

  function DropBig(h: Heap, a: nat): Heap
    requires Page(a) in h.chunks && Page(a) + Pages(h.chunks[Page(a)]) <= |h.used|
  {
    DropChunk(h, Page(a)).(live := h.live - {a})
  }

  lemma DropBigLive(h: Heap, g: Heap, a: nat)
    requires LiveInv(h) && a in h.live && Page(a) in h.chunks && h.chunks[Page(a)].Big?
    requires g.chunks == h.chunks - {Page(a)} && g.live == h.live - {a}
    ensures LiveInv(g)
  {
    assert Held(h, a, h.live[a]);
    forall b | b in g.live ensures Held(g, b, g.live[b]) {
      assert Held(h, b, h.live[b]);
      assert Page(b) == Page(a) ==> b == a;
      HeldFrame(h, g, b, h.live[b]);
    }
    assert forall p: nat :: Page(BigAddr(p)) == p;
  }

  lemma DropBigCore(h: Heap, a: nat)
    requires Core(h) && a in h.live && Page(a) in h.chunks && h.chunks[Page(a)].Big?
    ensures Page(a) + Pages(h.chunks[Page(a)]) <= |h.used| && Core(DropBig(h, a))
  {
    hide AllAre, LiveInv, ListInv, ArenaInv;
    var p := Page(a);
    ChunkOnDevice(h, p);
    hide PageInv;
    var g := DropBig(h, a);
    DropPages(h, p);
    DropBigLive(h, g, a);
    PagesFrame(DropChunk(h, p), g);
    forall b | b in h.live && Page(b) != p ensures b in g.live {
    }
    ListsFrame(h, g);
  }

  lemma ChunkOnDevice(h: Heap, p: nat)
    requires PageInv(h) && p in h.chunks
    ensures p + Pages(h.chunks[p]) <= |h.used|
  {
  }

  // ---------------------------------------------------------------- the calls

  /** Pages for a block that is too large for the descriptors. */
  function BigPages(size: nat): nat {
    (size + 12 + 4095) / 4096
  }

  /** malloc(). */
  function Malloc(h: Heap, size: nat): (Heap, Option<nat>)
    requires Core(h)
  {
    var d := DescFor(size);
    if size == 0 then (h, None)
    else if d == 7 then
      match Scan(h.used, 0, BigPages(size), false)
      case None => (h, None)
      case Some(p) => (AddBig(h, p, BigPages(size), size), Some(BigAddr(p)))
    else if h.free[d] != [] then
      PopReady(h, d);
      (Pop(h, d, size), Some(h.free[d][0]))
    else
      match Scan(h.used, 0, 1, false)
      case None => (h, None)
      case Some(p) =>
        ArenaReady(h, d, p);
        (Pop(NewArena(h, d, p), d, size), Some(Blk(p, d, 0)))
  }

  lemma {:induction false} CutFirst(p: nat, d: nat, n: nat)
    requires d < 7 && n > 0
    ensures Cut(p, d, n) != [] && Cut(p, d, n)[0] == Blk(p, d, 0)
  {
    if n > 1 {
      CutFirst(p, d, n - 1);
    }
  }

  lemma ArenaReady(h: Heap, d: nat, p: nat)
    requires Core(h) && d < 7 && h.free[d] == [] && AllAre(h.used, p, 1, false)
    ensures var g := NewArena(h, d, p); Core(g) && CanPop(g, d) && g.free[d][0] == Blk(p, d, 0)
  {
    NewArenaCore(h, d, p);
    SizeFacts(d);
    CutFirst(p, d, Per(d));
    hide PageInv, LiveInv, Cut, Blk, Per;
    PopReady(NewArena(h, d, p), d);
  }

  /** free() of a block that the caller holds. */
  function Free(h: Heap, a: nat): Heap
    requires Core(h) && a in h.live
  {
    var c := h.chunks[Page(a)];
    if c.Big? then DropBig(h, a)
    else
      PushCore(h, a);
      var g := Push(h, a);
      if c.freeCnt + 1 >= Per(c.desc) then DropArena(g, Page(a)) else g
  }

  lemma NoIdleFrame(h: Heap, g: Heap)
    requires NoIdle(h)
    requires forall p :: p in g.chunks ==> NotIdle(g.chunks[p]) || (p in h.chunks && g.chunks[p] == h.chunks[p])
    ensures NoIdle(g)
  {
  }

  lemma PopNoIdle(h: Heap, d: nat, size: nat)
    requires Core(h) && CanPop(h, d) && 0 < size <= Size(d)
    ensures NotIdle(Pop(h, d, size).chunks[Page(h.free[d][0])])
  {
    var p := Page(h.free[d][0]);
    assert InArena(h.chunks, h.free[d][0], d);
    hide PageInv, LiveInv, IsBlk;
    CountAtMost(h, p);
  }

  lemma BigFits(size: nat)
    requires size > 0
    ensures BigPages(size) > 0 && size <= 4096 * BigPages(size) - 12
  {
  }

  /** malloc() gives a block that nobody holds and that is large enough, or changes nothing. */
  ghost predicate MallocOk(h: Heap, size: nat, g: Heap, r: Option<nat>) {
    && Inv(g)
    && match r
       case None => g == h
       case Some(a) => a !in h.live && g.live == h.live[a := size] && Held(g, a, size)
  }

  lemma GivesHeld(h: Heap, g: Heap, a: nat, size: nat)
    requires Core(g) && g.live == h.live[a := size]
    ensures Held(g, a, size)
  {
    assert a in g.live;
  }

  lemma MallocBig(h: Heap, size: nat, p: nat)
    requires Inv(h) && size > 0 && AllAre(h.used, p, BigPages(size), false)
    ensures MallocOk(h, size, AddBig(h, p, BigPages(size), size), Some(BigAddr(p)))
  {
    BigFits(size);
    hide Core, BigPages, Held;
    var g := AddBig(h, p, BigPages(size), size);
    AddBigCore(h, p, BigPages(size), size);
    NoIdleFrame(h, g);
    GivesHeld(h, g, BigAddr(p), size);
  }

  /** Both from the free list as it is and from a new arena. */
  lemma MallocPop(h: Heap, k: Heap, d: nat, size: nat)
    requires Core(h) && NoIdle(k) && k.live == h.live && d < 7 && h.free[d] != [] && 0 < size <= Size(d)
    requires forall p :: p in h.chunks ==> p == Page(h.free[d][0]) || (p in k.chunks && h.chunks[p] == k.chunks[p])
    ensures CanPop(h, d) && MallocOk(k, size, Pop(h, d, size), Some(h.free[d][0]))
  {
    PopCore(h, d, size);
    PopNoIdle(h, d, size);
    hide Core, Held, Size;
    NoIdleFrame(k, Pop(h, d, size));
    GivesHeld(k, Pop(h, d, size), h.free[d][0], size);
  }

  lemma MallocNew(h: Heap, d: nat, size: nat, p: nat)
    requires Inv(h) && d < 7 && h.free[d] == [] && 0 < size <= Size(d) && AllAre(h.used, p, 1, false)
    ensures var g := NewArena(h, d, p); CanPop(g, d) && MallocOk(h, size, Pop(g, d, size), Some(Blk(p, d, 0)))
  {
    var g := NewArena(h, d, p);
    ArenaReady(h, d, p);
    BlkFacts(p, d, 0) by { SizeFacts(d); }
    hide Core, Held, Size, Blk;
    MallocPop(g, h, d, size);
  }

  /** malloc() keeps the invariant and gives a block that nobody holds and that is large enough, or
      nothing, and then nothing has changed: the request was for no bytes, or the page allocator had
      no room and the descriptor no free block. */
  lemma MallocGives(h: Heap, size: nat)
    requires Inv(h)
    ensures MallocOk(h, size, Malloc(h, size).0, Malloc(h, size).1)
    ensures var d := DescFor(size);
      Malloc(h, size).1 == None <==>
        || size == 0
        || (d == 7 && forall p: nat :: !AllAre(h.used, p, BigPages(size), false))
        || (d < 7 && h.free[d] == [] && forall p: nat :: !AllAre(h.used, p, 1, false))
  {
    var d := DescFor(size);
    assert |h.free| == 7;
    hide Inv, Core, MallocOk, BigPages, Pop, CanPop, NewArena, AddBig, AllAre;
    if size == 0 {
      MallocNothing(h, size);
    } else if d == 7 {
      var r := Scan(h.used, 0, BigPages(size), false);
      if r.Some? {
        MallocBig(h, size, r.value);
      } else {
        MallocNothing(h, size);
      }
    } else if h.free[d] != [] {
      MallocFromList(h, d, size);
    } else {
      var r := Scan(h.used, 0, 1, false);
      if r.Some? {
        MallocNew(h, d, size, r.value);
      } else {
        MallocNothing(h, size);
      }
    }
  }

  /** There are that many free pages in a row somewhere. */
  ghost predicate FreeRun(used: seq<bool>, n: nat) {
    exists p: nat :: AllAre(used, p, n, false)
  }

  lemma ShorterRun(used: seq<bool>, n: nat, m: nat)
    requires FreeRun(used, n) && m <= n
    ensures FreeRun(used, m)
  {
    var p: nat :| AllAre(used, p, n, false);
    assert AllAre(used, p, m, false);
  }

  lemma PagesNeeded(size: nat)
    requires size > 0
    ensures 4096 * (BigPages(size) - 1) < size + 12 <= 4096 * BigPages(size)
    ensures forall n: nat :: size + 12 <= 4096 * n ==> BigPages(size) <= n
  {
  }

  /** A request for more than 1024 bytes succeeds if and only if some run of free pages holds it behind the header,
      and takes the fewest pages that do. */
  lemma BigMeans(h: Heap, size: nat)
    requires Inv(h) && size > 1024
    ensures Malloc(h, size).1.Some? <==> exists n: nat :: size + 12 <= 4096 * n && FreeRun(h.used, n)
    ensures Malloc(h, size).1.Some? ==>
      var (g, r) := Malloc(h, size); var p := Page(r.value);
      && r.value == 4096 * p + 12 && p in g.chunks && g.chunks[p].Big?
      && 4096 * (g.chunks[p].pages - 1) < size + 12 <= 4096 * g.chunks[p].pages
  {
    PagesNeeded(size);
    assert DescFor(size) == 7;
    var n := BigPages(size);
    var r := Scan(h.used, 0, n, false);
    hide Inv, BigPages, DescFor;
    if r.Some? {
      assert FreeRun(h.used, n);
      assert Page(BigAddr(r.value)) == r.value;
    } else {
      assert !FreeRun(h.used, n);
      forall m: nat | size + 12 <= 4096 * m ensures !FreeRun(h.used, m) {
        if FreeRun(h.used, m) {
          ShorterRun(h.used, m, n);
        }
      }
    }
  }

  /** A request for up to 1024 bytes gets a block of the smallest size of 16, 32, ..., 1024 that holds it, in a page
      of such blocks. */
  lemma SmallMeans(h: Heap, size: nat)
    requires Inv(h) && 0 < size <= 1024
    ensures Malloc(h, size).1.Some? ==>
      var (g, r) := Malloc(h, size); var p := Page(r.value);
      && p in g.chunks && g.chunks[p].Small? && g.chunks[p].desc < 7
      && var k := 16 * Pow2(g.chunks[p].desc); size <= k && (k == 16 || k < 2 * size)
    ensures Malloc(h, size).1 == None ==> !FreeRun(h.used, 1)
  {
    MallocGives(h, size);
    var d := DescFor(size);
    DescIsSmallest(size);
    hide Inv, DescFor, Pow2, Cut, Size, AllAre, MallocOk, Core;
    if h.free[d] == [] {
      var p := Scan(h.used, 0, 1, false);
      if p.Some? {
        ArenaReady(h, d, p.value);
      }
    } else {
      PopReady(h, d);
    }
  }

  lemma DescIsSmallest(size: nat)
    requires 0 < size <= 1024
    ensures DescFor(size) < 7
    ensures var k := 16 * Pow2(DescFor(size)); size <= k && (k == 16 || k < 2 * size) && k == Size(DescFor(size))
  {
    assert Pow2(3) == 8 && Pow2(6) == 8 * Pow2(3);
  }

  /** A page has as many blocks of a size as fit behind the header. */
  lemma BlocksFit(d: nat)
    requires d < 7
    ensures Size(d) == 16 * Pow2(d) && 12 + Per(d) * Size(d) <= 4096 < 12 + (Per(d) + 1) * Size(d)
  {
    assert Pow2(3) == 8 && Pow2(6) == 8 * Pow2(3);
    hide Pow2;
  }

  lemma MallocNothing(h: Heap, size: nat)
    requires Inv(h)
    ensures MallocOk(h, size, h, None)
  {
  }

  lemma MallocFromList(h: Heap, d: nat, size: nat)
    requires Inv(h) && d < 7 && h.free[d] != [] && 0 < size <= Size(d)
    ensures CanPop(h, d) && MallocOk(h, size, Pop(h, d, size), Some(h.free[d][0]))
  {
    hide Core, Held, Size;
    MallocPop(h, h, d, size);
  }

  /** The last block in use: the arena goes. Any other: it stays. */
  lemma FreeSmall(h: Heap, a: nat)
    requires Inv(h) && a in h.live && h.chunks[Page(a)].Small?
    ensures var p := Page(a); var c := h.chunks[p]; var g := Push(h, a);
      && c.desc < 7 && CanPush(h, a) && Core(g) && c.freeCnt + 1 <= Per(c.desc)
      && (c.freeCnt + 1 == Per(c.desc) <==> forall b :: b in g.live ==> Page(b) != p)
  {
    var p := Page(a);
    var c := h.chunks[p];
    var g := Push(h, a);
    PushCore(h, a);
    CountAtMost(g, p);
    hide PageInv, ArenaInv, ListInv, IsBlk, Per;
    forall b | b in g.live && Page(b) == p ensures SlotOf(b, p, c.desc) {
      assert Held(g, b, g.live[b]);
    }
  }

  lemma FreeBigInv(h: Heap, a: nat)
    requires Inv(h) && a in h.live && Page(a) in h.chunks && h.chunks[Page(a)].Big?
    ensures Inv(Free(h, a))
  {
    hide Page;
    DropBigCore(h, a);
    hide Core;
    NoIdleFrame(h, DropBig(h, a));
  }

  lemma FreeSmallInv(h: Heap, a: nat)
    requires Inv(h) && a in h.live && Page(a) in h.chunks && h.chunks[Page(a)].Small?
    ensures Inv(Free(h, a))
  {
    hide Page, Per, Core;
    var p := Page(a);
    var c := h.chunks[p];
    FreeSmall(h, a);
    var g := Push(h, a);
    if c.freeCnt + 1 >= Per(c.desc) {
      DropCore(g, p);
      NoIdleFrame(h, DropArena(g, p));
    } else {
      NoIdleFrame(h, g);
    }
  }

  lemma FreeInv(h: Heap, a: nat)
    requires Inv(h) && a in h.live
    ensures Inv(Free(h, a))
  {
    assert Held(h, a, h.live[a]);
    hide Page, Core, Free;
    if h.chunks[Page(a)].Big? {
      FreeBigInv(h, a);
    } else {
      FreeSmallInv(h, a);
    }
  }

  // ---------------------------------------------------------------- what the calls give

  /** free() of an arena block: free_cnt never passes the number of blocks, so the assertion holds;
      the page goes back exactly if no client holds another of its blocks, and then exactly the
      page's blocks leave the free list. */
  lemma FreeReturnsPage(h: Heap, a: nat)
    requires Inv(h) && a in h.live && h.chunks[Page(a)].Small?
    ensures var p := Page(a); var c := h.chunks[p]; var g := Free(h, a);
      && c.desc < 7 && c.freeCnt + 1 <= Per(c.desc) && g.live == h.live - {a} && |g.free| == |h.free| == 7
      && (p !in g.chunks <==> forall b :: b in h.live && b != a ==> Page(b) != p)
      && (p !in g.chunks ==> && g.used == Marked(h.used, p, 1, false)
                             && forall b :: b in g.free[c.desc] <==> b in h.free[c.desc] && Page(b) != p)
      && (p in g.chunks ==> g.used == h.used && g.free[c.desc] == [a] + h.free[c.desc])
  {
    hide Core, Per, Page;
    FreeSmall(h, a);
    ChunkHere(h, Page(a));
    var g := Push(h, a);
    assert forall b :: b in g.live <==> b in h.live && b != a;
    var c := h.chunks[Page(a)];
    if c.freeCnt + 1 >= Per(c.desc) {
      PurgedList(h.free[c.desc], a);
    }
  }

  lemma ChunkHere(h: Heap, p: nat)
    requires Core(h) && p in h.chunks
    ensures p + Pages(h.chunks[p]) <= |h.used| && |h.free| == 7
  {
  }

  lemma PurgedList(q: seq<nat>, a: nat)
    ensures forall b :: b in Purge([a] + q, Page(a)) <==> b in q && Page(b) != Page(a)
  {
  }

  // ---------------------------------------------------------------- where blocks lie

  /** The bytes of the block at address a. */
  predicate Extent(h: Heap, a: nat, x: nat) {
    Page(a) in h.chunks && a <= x < a + Capacity(h, a)
  }

  lemma ExtentPage(h: Heap, a: nat, x: nat)
    requires LiveInv(h) && a in h.live && Extent(h, a, x)
    ensures var p := Page(a);
      p <= Page(x) < p + Pages(h.chunks[p]) && (Page(x) == p ==> x % 4096 >= 12)
  {
    assert Held(h, a, h.live[a]);
    var c := h.chunks[Page(a)];
    if c.Small? {
      InBlock(a, c.desc, x);
    }
  }

  /** A page is in at most one chunk. */
  lemma OneChunk(h: Heap, p: nat, q: nat, y: nat)
    requires PageInv(h) && p in h.chunks && q in h.chunks
    requires p <= y < p + Pages(h.chunks[p]) && q <= y < q + Pages(h.chunks[q])
    ensures p == q
  {
  }

  /** Blocks that clients hold do not overlap. */
  lemma LiveApart(h: Heap, a: nat, b: nat, x: nat)
    requires Core(h) && a in h.live && b in h.live && Extent(h, a, x) && Extent(h, b, x)
    ensures a == b
  {
    ExtentPage(h, a, x);
    ExtentPage(h, b, x);
    assert Held(h, a, h.live[a]) && Held(h, b, h.live[b]);
    OneChunk(h, Page(a), Page(b), Page(x));
    var c := h.chunks[Page(a)];
    hide PageInv, ListInv, ArenaInv, LiveInv;
    if c.Small? {
      BlocksApart(a, b, c.desc, x);
    }
  }

  /** Nor do they overlap free blocks. */
  lemma FreeApart(h: Heap, a: nat, d: nat, b: nat, x: nat)
    requires Core(h) && a in h.live && Extent(h, a, x) && d < 7 && b in h.free[d]
    ensures !(b <= x < b + Size(d))
  {
    ExtentPage(h, a, x);
    assert Held(h, a, h.live[a]) && InArena(h.chunks, b, d);
    var p := Page(b);
    assert ArenaOk(h, p, d, h.chunks[p].freeCnt);
    hide ListInv, ArenaInv, LiveInv;
    if b <= x < b + Size(d) {
      InBlock(b, d, x);
      OneChunk(h, Page(a), p, Page(x));
      BlocksApart(a, b, d, x);
    }
  }

  /** Nor do they overlap the header of an arena. */
  lemma HeaderApart(h: Heap, a: nat, p: nat, x: nat)
    requires Core(h) && a in h.live && Extent(h, a, x) && p in h.chunks
    ensures !(4096 * p <= x < 4096 * p + 12)
  {
    ExtentPage(h, a, x);
    assert Pages(h.chunks[p]) > 0;
    if 4096 * p <= x < 4096 * p + 12 {
      OneChunk(h, Page(a), p, p);
    }
  }

  // ---------------------------------------------------------------- memory

  type Memory = nat -> Byte

  predicate HeaderByte(p: nat, x: nat) {
    4096 * p <= x < 4096 * p + 12
  }

  /** A byte of a list element in some block of a free list. */
  ghost predicate LinkByte(q: seq<nat>, x: nat) {
    exists b :: b in q && b <= x < b + 8
  }

  /** The free list from which malloc() takes its block. */
  function PopList(h: Heap, d: nat, p: nat): seq<nat>
    requires Core(h) && d < 7
  {
    if h.free[d] != [] then h.free[d] else Cut(p, d, Per(d))
  }

  /** The bytes that malloc() may write: the arena's header, and links of the free list. */
  ghost predicate MallocTouches(h: Heap, size: nat, x: nat)
    requires Core(h)
  {
    var r := Malloc(h, size).1;
    var d := DescFor(size);
    && r.Some?
    && (HeaderByte(Page(r.value), x) || (d < 7 && LinkByte(PopList(h, d, Page(r.value)), x)))
  }

  /** The bytes that free() may write: the header, the freed block, links of the free list, and all of
      the pages that go back to the page allocator. */
  ghost predicate FreeTouches(h: Heap, a: nat, x: nat)
    requires Core(h) && a in h.live
  {
    var p := Page(a);
    match h.chunks[p]
    case Small(d, cnt) =>
      || HeaderByte(p, x) || a <= x < a + Size(d) || LinkByte(h.free[d], x)
      || (cnt + 1 >= Per(d) && Page(x) == p)
    case Big(n) => p <= Page(x) < p + n
    case Foreign(_) => false
  }

  /** A block in an arena of pages that were free is not in anybody's block. */
  lemma NewPagesApart(h: Heap, a: nat, x: nat, p: nat, n: nat)
    requires Core(h) && a in h.live && Extent(h, a, x) && n > 0 && AllAre(h.used, p, n, false)
    ensures !(p <= Page(x) < p + n)
  {
    ExtentPage(h, a, x);
    hide Page;
    FreePagesUnoccupied(h, p, n, Page(a));
  }

  lemma HeaderPage(p: nat, x: nat)
    requires HeaderByte(p, x)
    ensures Page(x) == p
  {
  }

  lemma ListApart(h: Heap, a: nat, d: nat, x: nat)
    requires Core(h) && a in h.live && Extent(h, a, x) && d < 7
    ensures !LinkByte(h.free[d], x)
  {
    forall b | b in h.free[d] ensures !(b <= x < b + 8) {
      FreeApart(h, a, d, b, x);
      SizeFacts(d);
    }
    hide Core, Extent;
  }

  lemma CutPage(p: nat, d: nat, x: nat)
    requires d < 7 && LinkByte(Cut(p, d, Per(d)), x)
    ensures Page(x) == p
  {
    var b :| b in Cut(p, d, Per(d)) && b <= x < b + 8;
    CutAll(p, d);
    SizeFacts(d);
    hide Cut, Per;
    InBlock(b, d, x);
  }

  /** malloc() writes nothing in a block that a client holds. */
  lemma MallocSpares(h: Heap, size: nat, a: nat, x: nat)
    requires Core(h) && a in h.live && Extent(h, a, x)
    ensures !MallocTouches(h, size, x)
  {
    var d := DescFor(size);
    if size > 0 && d == 7 {
      SparesBig(h, size, a, x);
    } else if size > 0 && h.free[d] != [] {
      PopReady(h, d);
      ListApart(h, a, d, x);
      HeaderApart(h, a, Page(h.free[d][0]), x);
    } else if size > 0 {
      SparesNew(h, d, size, a, x);
    }
  }

  lemma SparesBig(h: Heap, size: nat, a: nat, x: nat)
    requires Core(h) && a in h.live && Extent(h, a, x) && size > 0 && DescFor(size) == 7
    ensures !MallocTouches(h, size, x)
  {
    var r := Scan(h.used, 0, BigPages(size), false);
    if r.Some? {
      var p := r.value;
      BigFits(size);
      BigAddress(p);
      NewPagesApart(h, a, x, p, BigPages(size));
      if HeaderByte(p, x) {
        HeaderPage(p, x);
      }
    }
  }

  lemma SparesNew(h: Heap, d: nat, size: nat, a: nat, x: nat)
    requires Core(h) && a in h.live && Extent(h, a, x) && size > 0 && DescFor(size) == d < 7 && h.free[d] == []
    ensures !MallocTouches(h, size, x)
  {
    var r := Scan(h.used, 0, 1, false);
    if r.Some? {
      var p := r.value;
      BlkFacts(p, d, 0) by { SizeFacts(d); }
      NewPagesApart(h, a, x, p, 1);
      hide Page, Blk, Cut, Per, Extent;
      if HeaderByte(p, x) {
        HeaderPage(p, x);
      }
      if LinkByte(Cut(p, d, Per(d)), x) {
        CutPage(p, d, x);
      }
    }
  }

  /** free() writes nothing in a block that another client holds. */
  lemma FreeSpares(h: Heap, f: nat, a: nat, x: nat)
    requires Inv(h) && f in h.live && a in h.live && a != f && Extent(h, a, x)
    ensures !FreeTouches(h, f, x)
  {
    assert Held(h, f, h.live[f]);
    var p := Page(f);
    ExtentPage(h, a, x);
    match h.chunks[p] {
      case Small(d, cnt) =>
        FreeSpareSmall(h, f, a, x, d, cnt);
      case Big(n) =>
        if p <= Page(x) < p + n {
          OneChunk(h, p, Page(a), Page(x));
        }
      case Foreign(n) =>
    }
  }

  lemma FreeSpareSmall(h: Heap, f: nat, a: nat, x: nat, d: nat, cnt: nat)
    requires Inv(h) && f in h.live && a in h.live && a != f && Extent(h, a, x)
    requires Page(f) in h.chunks && h.chunks[Page(f)] == Small(d, cnt) && d < 7
    ensures !FreeTouches(h, f, x)
  {
    var p := Page(f);
    HeaderApart(h, a, p, x);
    ListApart(h, a, d, x);
    if f <= x < f + Size(d) {
      LiveApart(h, a, f, x);
    }
    if cnt + 1 >= Per(d) && Page(x) == p {
      FreeSmall(h, f);
      ExtentPage(h, a, x);
      OneChunk(h, p, Page(a), p);
    }
  }

  /** Block a is held as before: same place, same size, same room. */
  ghost predicate SameBlock(h: Heap, g: Heap, a: nat) {
    a in h.live && a in g.live && g.live[a] == h.live[a] && SameRoom(h, g, a)
  }

  predicate SameRoom(h: Heap, g: Heap, a: nat) {
    Page(a) in h.chunks && Page(a) in g.chunks && Capacity(g, a) == Capacity(h, a)
  }

  lemma RoomFrame(h: Heap, g: Heap, a: nat)
    requires Page(a) in h.chunks && Page(a) in g.chunks
    requires var c, k := h.chunks[Page(a)], g.chunks[Page(a)]; k == c || (k.Small? && c.Small? && k.desc == c.desc)
    ensures SameRoom(h, g, a)
  {
  }

  lemma SameBig(h: Heap, size: nat, a: nat, p: nat)
    requires Core(h) && a in h.live && size > 0 && AllAre(h.used, p, BigPages(size), false)
    ensures SameRoom(h, AddBig(h, p, BigPages(size), size), a)
  {
    assert Held(h, a, h.live[a]);
    BigFits(size);
    AddPages(h, p, Big(BigPages(size)));
    hide Core, Page, BigPages;
    RoomFrame(h, AddBig(h, p, BigPages(size), size), a);
  }

  lemma SamePop(h: Heap, d: nat, size: nat, a: nat)
    requires ListInv(h) && CanPop(h, d) && Page(a) in h.chunks
    ensures SameRoom(h, Pop(h, d, size), a)
  {
    assert InArena(h.chunks, h.free[d][0], d);
    hide ListInv, Page, IsBlk;
    RoomFrame(h, Pop(h, d, size), a);
  }

  lemma SameNew(h: Heap, d: nat, size: nat, a: nat, p: nat)
    requires Core(h) && a in h.live && d < 7 && h.free[d] == [] && AllAre(h.used, p, 1, false)
    ensures CanPop(NewArena(h, d, p), d) && SameRoom(h, Pop(NewArena(h, d, p), d, size), a)
  {
    assert Held(h, a, h.live[a]);
    AddPages(h, p, Small(d, Per(d)));
    ArenaReady(h, d, p);
    var g := NewArena(h, d, p);
    hide PageInv, ArenaInv, LiveInv, ListInv, Page, Per, Blk, Cut;
    RoomFrame(h, g, a);
    SamePop(g, d, size, a);
  }

  lemma MallocRoom(h: Heap, size: nat, a: nat)
    requires Core(h) && a in h.live
    ensures SameRoom(h, Malloc(h, size).0, a)
  {
    assert Held(h, a, h.live[a]);
    var d := DescFor(size);
    if size == 0 {
      RoomFrame(h, h, a);
    } else if d == 7 {
      var r := Scan(h.used, 0, BigPages(size), false);
      hide Core, Page, BigPages, SameRoom, AddBig;
      if r.Some? {
        SameBig(h, size, a, r.value);
      } else {
        RoomFrame(h, h, a);
      }
    } else if h.free[d] != [] {
      PopReady(h, d);
      hide PageInv, ArenaInv, LiveInv, Page;
      SamePop(h, d, size, a);
    } else {
      var r := Scan(h.used, 0, 1, false);
      assert |h.free| == 7;
      hide Core, Page, SameRoom;
      if r.Some? {
        SameNew(h, d, size, a, r.value);
      } else {
        RoomFrame(h, h, a);
      }
    }
  }

  lemma MallocSame(h: Heap, size: nat, a: nat)
    requires Inv(h) && a in h.live
    ensures SameBlock(h, Malloc(h, size).0, a)
  {
    MallocGives(h, size);
    MallocRoom(h, size, a);
    hide Core, Malloc, SameRoom, Held;
  }

  lemma FreeSame(h: Heap, f: nat, a: nat)
    requires Inv(h) && f in h.live && a in h.live && a != f
    ensures SameBlock(h, Free(h, f), a)
  {
    assert Held(h, a, h.live[a]) && Held(h, f, h.live[f]);
    assert a in h.live - {f};
    if h.chunks[Page(f)].Small? {
      FreeSameSmall(h, f, a);
    } else {
      assert Page(a) == Page(f) ==> a == f;
      hide Core, Page, Capacity, Held;
      RoomFrame(h, Free(h, f), a);
    }
  }

  lemma FreeSameSmall(h: Heap, f: nat, a: nat)
    requires Inv(h) && f in h.live && a in h.live - {f} && Page(a) in h.chunks
    requires Page(f) in h.chunks && h.chunks[Page(f)].Small?
    ensures SameBlock(h, Free(h, f), a)
  {
    hide Core, Page, Per, Capacity;
    FreeSmall(h, f);
    RoomFrame(h, Free(h, f), a);
  }

  // ---------------------------------------------------------------- runs

  /** The allocator and the memory that it and its clients share. */
  datatype State = State(heap: Heap, mem: Memory)

  /** Memory after a call that may write where "w" says: there it is junk. */
  ghost function Overwrite(m: Memory, w: nat -> bool, junk: Memory): Memory {
    (x: nat) => if w(x) then junk(x) else m(x)
  }

  ghost function DoMalloc(s: State, size: nat, junk: Memory): (State, Option<nat>)
    requires Core(s.heap)
  {
    var (g, r) := Malloc(s.heap, size);
    (State(g, Overwrite(s.mem, (x: nat) => MallocTouches(s.heap, size, x), junk)), r)
  }

  ghost function DoFree(s: State, a: nat, junk: Memory): State
    requires Core(s.heap) && a in s.heap.live
  {
    State(Free(s.heap, a), Overwrite(s.mem, (x: nat) => FreeTouches(s.heap, a, x), junk))
  }

  function Stored(m: Memory, y: nat, v: Byte): Memory {
    (x: nat) => if x == y then v else m(x)
  }

  /** memcpy(). */
  function Copy(m: Memory, to: nat, src: nat, n: nat): Memory {
    (x: nat) => if to <= x < to + n then m(src + (x - to)) else m(x)
  }

  function ByteAt(m: Memory, a: nat, i: nat): Byte {
    m(a + i)
  }

  /** realloc(); with two scribbles, of malloc() and of free(). */
  ghost function DoRealloc(s: State, from: Option<nat>, size: nat, junk: Memory, junk': Memory): (State, Option<nat>)
    requires Inv(s.heap) && (from.Some? ==> from.value in s.heap.live)
  {
    if size == 0 then (if from.Some? then DoFree(s, from.value, junk) else s, None)
    else
      var (t, r) := DoMalloc(s, size, junk);
      if from.Some? && r.Some? then
        ReallocReady(s.heap, from.value, size);
        var n := Min(size, Capacity(t.heap, from.value));
        (DoFree(t.(mem := Copy(t.mem, r.value, from.value, n)), from.value, junk'), r)
      else (t, r)
  }

  lemma ReallocReady(h: Heap, from: nat, size: nat)
    requires Inv(h) && from in h.live
    ensures var g := Malloc(h, size).0; Inv(g) && SameBlock(h, g, from)
  {
    MallocGives(h, size);
    MallocSame(h, size, from);
  }

  /** Block a and all its bytes are as they were. */
  ghost predicate Kept(s: State, t: State, a: nat) {
    SameBlock(s.heap, t.heap, a) && forall x: nat :: Extent(s.heap, a, x) ==> t.mem(x) == s.mem(x)
  }

  lemma SameExtent(h: Heap, g: Heap, a: nat, x: nat)
    requires SameBlock(h, g, a)
    ensures Extent(g, a, x) <==> Extent(h, a, x)
  {
  }

  lemma KeptTwice(s: State, t: State, u: State, a: nat)
    requires Kept(s, t, a) && Kept(t, u, a)
    ensures Kept(s, u, a)
  {
    forall x: nat | Extent(s.heap, a, x) ensures u.mem(x) == s.mem(x) {
      SameExtent(s.heap, t.heap, a, x);
    }
  }

  lemma MallocKept(s: State, size: nat, junk: Memory, a: nat)
    requires Inv(s.heap) && a in s.heap.live
    ensures Kept(s, DoMalloc(s, size, junk).0, a)
  {
    MallocSame(s.heap, size, a);
    hide Malloc, SameBlock, MallocTouches, PageInv, ListInv, ArenaInv, LiveInv;
    forall x: nat | Extent(s.heap, a, x) ensures !MallocTouches(s.heap, size, x) {
      MallocSpares(s.heap, size, a, x);
    }
  }

  lemma FreeKept(s: State, f: nat, junk: Memory, a: nat)
    requires Inv(s.heap) && f in s.heap.live && a in s.heap.live && a != f
    ensures Kept(s, DoFree(s, f, junk), a)
  {
    FreeSame(s.heap, f, a);
    hide Free, SameBlock, FreeTouches, PageInv, ListInv, ArenaInv, LiveInv;
    forall x: nat | Extent(s.heap, a, x) ensures !FreeTouches(s.heap, f, x) {
      FreeSpares(s.heap, f, a, x);
    }
  }

  lemma CopyKept(s: State, to: nat, from: nat, n: nat, a: nat)
    requires Inv(s.heap) && a in s.heap.live && to in s.heap.live && a != to
    requires Page(to) in s.heap.chunks && n <= Capacity(s.heap, to)
    ensures Kept(s, s.(mem := Copy(s.mem, to, from, n)), a)
  {
    var t := s.(mem := Copy(s.mem, to, from, n));
    assert Held(s.heap, a, s.heap.live[a]);
    forall x: nat | Extent(s.heap, a, x) ensures t.mem(x) == s.mem(x) {
      if to <= x < to + n {
        LiveApart(s.heap, a, to, x);
      }
    }
    hide Core, Extent;
  }

  /** The state in which realloc() has copied and not yet freed. */
  ghost function Copied(s: State, from: nat, size: nat, junk: Memory): State
    requires Inv(s.heap) && from in s.heap.live && Malloc(s.heap, size).1.Some?
  {
    ReallocReady(s.heap, from, size);
    var (t, r) := DoMalloc(s, size, junk);
    t.(mem := Copy(t.mem, r.value, from, Min(size, Capacity(t.heap, from))))
  }

  lemma CopiedKept(s: State, from: nat, size: nat, junk: Memory, a: nat)
    requires Inv(s.heap) && from in s.heap.live && Malloc(s.heap, size).1.Some? && a in s.heap.live
    ensures Kept(s, Copied(s, from, size, junk), a)
  {
    MallocGives(s.heap, size);
    ReallocReady(s.heap, from, size);
    hide Inv, Core, Malloc, MallocTouches, Capacity;
    var t := DoMalloc(s, size, junk).0;
    MallocKept(s, size, junk, a);
    CopyKept(t, Malloc(s.heap, size).1.value, from, Min(size, Capacity(t.heap, from)), a);
    KeptTwice(s, t, Copied(s, from, size, junk), a);
  }

  lemma CopiedFacts(s: State, from: nat, size: nat, junk: Memory)
    requires Inv(s.heap) && from in s.heap.live && Malloc(s.heap, size).1.Some?
    ensures var t := Copied(s, from, size, junk); var to := Malloc(s.heap, size).1.value;
      && Inv(t.heap) && to !in s.heap.live && t.heap.live == s.heap.live[to := size]
      && (forall a :: a in s.heap.live ==> Kept(s, t, a))
  {
    MallocGives(s.heap, size);
    hide Inv, Core, Malloc, MallocTouches, Capacity, Kept;
    forall a | a in s.heap.live ensures Kept(s, Copied(s, from, size, junk), a) {
      CopiedKept(s, from, size, junk, a);
    }
  }

  /** What the copy holds is what the old block held, as far as both reach. */
  lemma CopiedBytes(s: State, from: nat, size: nat, junk: Memory, i: nat)
    requires Inv(s.heap) && from in s.heap.live && Malloc(s.heap, size).1.Some?
    requires Page(from) in s.heap.chunks && i < Min(size, Capacity(s.heap, from))
    ensures ByteAt(Copied(s, from, size, junk).mem, Malloc(s.heap, size).1.value, i) == ByteAt(s.mem, from, i)
  {
    hide Core, Malloc, Capacity, Kept;
    ReallocReady(s.heap, from, size);
    MallocKept(s, size, junk, from);
    var t := DoMalloc(s, size, junk).0;
    KeptByte(s, t, from, i);
    hide DoMalloc;
    CopyAt(t.mem, Malloc(s.heap, size).1.value, from, Min(size, Capacity(t.heap, from)), i);
  }

  lemma KeptByte(s: State, t: State, a: nat, i: nat)
    requires Kept(s, t, a) && Page(a) in s.heap.chunks && i < Capacity(s.heap, a)
    ensures Page(a) in t.heap.chunks && Capacity(t.heap, a) == Capacity(s.heap, a)
    ensures t.mem(a + i) == s.mem(a + i)
  {
    hide Capacity;
    assert Extent(s.heap, a, a + i);
  }

  lemma CopyAt(m: Memory, to: nat, src: nat, n: nat, i: nat)
    requires i < n
    ensures Copy(m, to, src, n)(to + i) == m(src + i)
  {
  }

  /** realloc() to a size above zero keeps the invariant and every other block. If it succeeds the
      old block is gone, and the new one begins with the bytes of the old as far as both reach; if
      not, the old block is still there. */
  lemma ReallocKeeps(s: State, from: nat, size: nat, junk: Memory, junk': Memory)
    requires Inv(s.heap) && from in s.heap.live && size > 0
    ensures var (t, r) := DoRealloc(s, Some(from), size, junk, junk');
      && Inv(t.heap)
      && (forall a :: a in s.heap.live && (a != from || r == None) ==> Kept(s, t, a))
      && (r == None ==> t.heap == s.heap)
      && (r.Some? ==> && r.value !in s.heap.live && t.heap.live == s.heap.live[r.value := size] - {from}
                      && Page(from) in s.heap.chunks
                      && forall i: nat :: i < Min(size, Capacity(s.heap, from)) ==> ByteAt(t.mem, r.value, i) == ByteAt(s.mem, from, i))
  {
    MallocGives(s.heap, size);
    assert Page(from) in s.heap.chunks by { assert Held(s.heap, from, s.heap.live[from]); }
    hide Core, Malloc, Capacity, Held, Page;
    var r := Malloc(s.heap, size).1;
    if r == None {
      forall a | a in s.heap.live ensures Kept(s, DoMalloc(s, size, junk).0, a) {
        MallocKept(s, size, junk, a);
      }
    } else {
      ReallocMoves(s, from, size, junk, junk');
    }
  }

  lemma ReallocMoves(s: State, from: nat, size: nat, junk: Memory, junk': Memory)
    requires Inv(s.heap) && from in s.heap.live && size > 0 && Malloc(s.heap, size).1.Some? && Page(from) in s.heap.chunks
    ensures var (t, r) := DoRealloc(s, Some(from), size, junk, junk');
      && r == Malloc(s.heap, size).1 && Inv(t.heap)
      && r.value !in s.heap.live && t.heap.live == s.heap.live[r.value := size] - {from}
      && (forall a :: a in s.heap.live && a != from ==> Kept(s, t, a))
      && forall i: nat :: i < Min(size, Capacity(s.heap, from)) ==> ByteAt(t.mem, r.value, i) == ByteAt(s.mem, from, i)
  {
    hide Core, Malloc, Capacity, Page, ByteAt;
    CopiedFacts(s, from, size, junk);
    ReallocIs(s, from, size, junk, junk');
    var m := Copied(s, from, size, junk);
    hide Copied, DoRealloc, DoFree, Kept;
    FreedFacts(m, from, junk');
    forall a | a in s.heap.live && a != from ensures Kept(s, DoFree(m, from, junk'), a) {
      FreeKept(m, from, junk', a);
      KeptTwice(s, m, DoFree(m, from, junk'), a);
    }
    forall i: nat | i < Min(size, Capacity(s.heap, from))
      ensures ByteAt(DoFree(m, from, junk').mem, Malloc(s.heap, size).1.value, i) == ByteAt(s.mem, from, i)
    {
      ReallocBytes(s, from, size, junk, junk', i);
    }
  }

  lemma ReallocIs(s: State, from: nat, size: nat, junk: Memory, junk': Memory)
    requires Inv(s.heap) && from in s.heap.live && size > 0 && Malloc(s.heap, size).1.Some?
    requires Inv(Copied(s, from, size, junk).heap) && from in Copied(s, from, size, junk).heap.live
    ensures DoRealloc(s, Some(from), size, junk, junk') == (DoFree(Copied(s, from, size, junk), from, junk'), Malloc(s.heap, size).1)
  {
    hide Core, Malloc, Capacity, DoFree;
  }

  lemma FreedFacts(m: State, from: nat, junk: Memory)
    requires Inv(m.heap) && from in m.heap.live
    ensures Inv(DoFree(m, from, junk).heap) && DoFree(m, from, junk).heap.live == m.heap.live - {from}
  {
    FreeInv(m.heap, from);
    FreeLive(m.heap, from);
    hide Core, Free;
  }

  lemma ReallocBytes(s: State, from: nat, size: nat, junk: Memory, junk': Memory, i: nat)
    requires Inv(s.heap) && from in s.heap.live && Malloc(s.heap, size).1.Some? && Page(from) in s.heap.chunks
    requires var m := Copied(s, from, size, junk); var to := Malloc(s.heap, size).1.value;
      Inv(m.heap) && from in m.heap.live && to in m.heap.live && m.heap.live[to] == size && to != from
    requires i < Min(size, Capacity(s.heap, from))
    ensures ByteAt(DoFree(Copied(s, from, size, junk), from, junk').mem, Malloc(s.heap, size).1.value, i) == ByteAt(s.mem, from, i)
  {
    hide Core, Malloc, Capacity, Page, DoFree;
    var to := Malloc(s.heap, size).1.value;
    CopiedBytes(s, from, size, junk, i);
    var m := Copied(s, from, size, junk);
    hide Copied;
    FreeKept(m, from, junk', to);
    RoomFor(m.heap, to, i);
  }

  lemma FreeLive(h: Heap, a: nat)
    requires Inv(h) && a in h.live
    ensures Free(h, a).live == h.live - {a}
  {
    hide Page, Per, PageInv, ArenaInv, ListInv;
  }

  lemma RoomFor(h: Heap, a: nat, i: nat)
    requires Inv(h) && a in h.live && i < h.live[a]
    ensures Extent(h, a, a + i)
  {
    assert Held(h, a, h.live[a]);
  }

  // Any run.

  datatype Call =
    | CMalloc(size: nat)
    | CFree(block: Option<nat>)
    | CRealloc(block: Option<nat>, size: nat)
    | CStore(a: nat, i: nat, v: Byte)      // a client writes a byte of its block
    | CGet(n: nat)                         // another client of the page allocator takes n pages
    | CPut(p: nat)                         // and gives them back

  /** A call, and what it leaves in the bytes that it scribbles on. */
  datatype Event = Event(call: Call, junk: Memory, junk': Memory)

  /** Clients pass only blocks they hold, and write only as many bytes as they asked for. */
  predicate Allowed(h: Heap, c: Call) {
    match c
    case CMalloc(_) => true
    case CFree(b) => b.Some? ==> b.value in h.live
    case CRealloc(b, _) => b.Some? ==> b.value in h.live
    case CStore(a, i, _) => a in h.live && i < h.live[a]
    case CGet(_) => true
    case CPut(p) => p in h.chunks && h.chunks[p].Foreign?
  }

  /** palloc_get_multiple() for others, who may write their pages. */
  ghost function DoGet(s: State, n: nat, junk: Memory): State {
    match if n == 0 then None else Scan(s.heap.used, 0, n, false)
    case None => s
    case Some(p) => State(AddChunk(s.heap, p, Foreign(n)), Overwrite(s.mem, (x: nat) => p <= Page(x) < p + n, junk))
  }

  /** palloc_free_multiple() for others. */
  ghost function DoPut(s: State, p: nat, junk: Memory): State
    requires Core(s.heap) && p in s.heap.chunks
  {
    var n := Pages(s.heap.chunks[p]);
    ChunkHere(s.heap, p);
    State(DropChunk(s.heap, p), Overwrite(s.mem, (x: nat) => p <= Page(x) < p + n, junk))
  }

  ghost function Next(s: State, e: Event): State
    requires Inv(s.heap)
  {
    if !Allowed(s.heap, e.call) then s
    else match e.call
      case CMalloc(size) => DoMalloc(s, size, e.junk).0
      case CFree(b) => if b.Some? then DoFree(s, b.value, e.junk) else s
      case CRealloc(b, size) => DoRealloc(s, b, size, e.junk, e.junk').0
      case CStore(a, i, v) => s.(mem := Stored(s.mem, a + i, v))
      case CGet(n) => DoGet(s, n, e.junk)
      case CPut(p) => DoPut(s, p, e.junk)
  }

  lemma GetInv(s: State, n: nat, junk: Memory)
    requires Inv(s.heap)
    ensures Inv(DoGet(s, n, junk).heap)
    ensures forall a :: a in s.heap.live ==> Kept(s, DoGet(s, n, junk), a)
  {
    var t := DoGet(s, n, junk);
    var r := if n == 0 then None else Scan(s.heap.used, 0, n, false);
    if r.Some? {
      var p := r.value;
      AddForeign(s.heap, p, n);
      NoIdleFrame(s.heap, t.heap);
      AddPages(s.heap, p, Foreign(n));
      forall a | a in s.heap.live ensures Kept(s, t, a) {
        assert Held(s.heap, a, s.heap.live[a]);
        RoomFrame(s.heap, t.heap, a);
        hide Held, SameRoom, PageInv, ListInv, ArenaInv, LiveInv, Page, Extent;
        forall x: nat | Extent(s.heap, a, x) ensures t.mem(x) == s.mem(x) {
          NewPagesApart(s.heap, a, x, p, n);
        }
      }
    } else {
      forall a | a in s.heap.live ensures Kept(s, t, a) {
        assert Held(s.heap, a, s.heap.live[a]);
      }
    }
  }

  lemma PutInv(s: State, p: nat, junk: Memory)
    requires Inv(s.heap) && p in s.heap.chunks && s.heap.chunks[p].Foreign?
    ensures Inv(DoPut(s, p, junk).heap)
    ensures forall a :: a in s.heap.live ==> Kept(s, DoPut(s, p, junk), a)
  {
    var t := DoPut(s, p, junk);
    DropForeign(s.heap, p);
    NoIdleFrame(s.heap, t.heap);
    forall a | a in s.heap.live ensures Kept(s, t, a) {
      assert Held(s.heap, a, s.heap.live[a]);
      RoomFrame(s.heap, t.heap, a);
      hide Held, SameRoom, ListInv, ArenaInv, Page, Extent;
      forall x: nat | Extent(s.heap, a, x) ensures t.mem(x) == s.mem(x) {
        ExtentPage(s.heap, a, x);
        if p <= Page(x) < p + Pages(s.heap.chunks[p]) {
          OneChunk(s.heap, p, Page(a), Page(x));
        }
      }
    }
  }

  /** The block a call is about, which it may free or write. */
  predicate About(c: Call, a: nat) {
    match c
    case CFree(b) => b == Some(a)
    case CRealloc(b, _) => b == Some(a)
    case CStore(b, _, _) => b == a
    case _ => false
  }

  lemma StoreKept(s: State, b: nat, i: nat, v: Byte, a: nat)
    requires Inv(s.heap) && a in s.heap.live && b in s.heap.live && a != b && i < s.heap.live[b]
    ensures Kept(s, s.(mem := Stored(s.mem, b + i, v)), a)
  {
    assert Held(s.heap, a, s.heap.live[a]);
    RoomFor(s.heap, b, i);
    if Extent(s.heap, a, b + i) {
      LiveApart(s.heap, a, b, b + i);
    }
    hide Core, Extent;
  }

  lemma KeptSelf(s: State, a: nat)
    requires Inv(s.heap) && a in s.heap.live
    ensures Kept(s, s, a)
  {
    assert Held(s.heap, a, s.heap.live[a]);
  }

  lemma ReallocOtherKept(s: State, b: Option<nat>, size: nat, junk: Memory, junk': Memory, a: nat)
    requires Inv(s.heap) && (b.Some? ==> b.value in s.heap.live) && a in s.heap.live && b != Some(a)
    ensures Inv(DoRealloc(s, b, size, junk, junk').0.heap)
    ensures Kept(s, DoRealloc(s, b, size, junk, junk').0, a)
  {
    hide Core, Kept, DoFree, DoMalloc;
    if size == 0 {
      if b.Some? {
        FreedFacts(s, b.value, junk);
        FreeKept(s, b.value, junk, a);
      } else {
        KeptSelf(s, a);
      }
    } else if b.Some? {
      ReallocKeeps(s, b.value, size, junk, junk');
    } else {
      MallocFacts(s, size, junk);
      MallocKept(s, size, junk, a);
    }
  }

  lemma MallocFacts(s: State, size: nat, junk: Memory)
    requires Inv(s.heap)
    ensures Inv(DoMalloc(s, size, junk).0.heap)
  {
    MallocGives(s.heap, size);
    hide Core, Malloc;
  }

  /** free() of a block with pages of its own gives back exactly these. */
  lemma FreeBigMeans(h: Heap, a: nat)
    requires Inv(h) && a in h.live && h.chunks[Page(a)].Big?
    ensures var p := Page(a); var g := Free(h, a);
      && p in h.chunks && p + h.chunks[p].pages <= |h.used|
      && g.live == h.live - {a} && g.chunks == h.chunks - {p} && g.free == h.free && |g.used| == |h.used|
      && forall q: nat :: q < |h.used| ==> g.used[q] == (h.used[q] && !(p <= q < p + h.chunks[p].pages))
  {
    assert Held(h, a, h.live[a]);
    ChunkHere(h, Page(a));
    hide PageInv, LiveInv, ListInv, ArenaInv, Page;
  }

  /** realloc() to no bytes frees the block, if there is one, and returns none. */
  lemma ReallocNothing(s: State, b: Option<nat>, junk: Memory, junk': Memory)
    requires Inv(s.heap) && (b.Some? ==> b.value in s.heap.live)
    ensures var (t, r) := DoRealloc(s, b, 0, junk, junk');
      && r == None && Inv(t.heap) && (b == None ==> t == s)
      && t.heap.live == (if b.Some? then s.heap.live - {b.value} else s.heap.live)
      && forall a :: a in s.heap.live && b != Some(a) ==> Kept(s, t, a)
  {
    hide Core, Kept, DoFree;
    forall a | a in s.heap.live && b != Some(a) ensures Kept(s, DoRealloc(s, b, 0, junk, junk').0, a) {
      ReallocOtherKept(s, b, 0, junk, junk', a);
    }
    if b.Some? {
      FreedFacts(s, b.value, junk);
    }
  }

  /** realloc() of no block gives what malloc() gives, and keeps every block. */
  lemma ReallocFresh(s: State, size: nat, junk: Memory, junk': Memory)
    requires Inv(s.heap) && size > 0
    ensures var (t, r) := DoRealloc(s, None, size, junk, junk');
      && MallocOk(s.heap, size, t.heap, r) && r == Malloc(s.heap, size).1
      && forall a :: a in s.heap.live ==> Kept(s, t, a)
  {
    MallocGives(s.heap, size);
    hide Core, Kept, Malloc, MallocOk;
    forall a | a in s.heap.live ensures Kept(s, DoRealloc(s, None, size, junk, junk').0, a) {
      ReallocOtherKept(s, None, size, junk, junk', a);
    }
  }

  lemma ReallocInv(s: State, b: Option<nat>, size: nat, junk: Memory, junk': Memory)
    requires Inv(s.heap) && (b.Some? ==> b.value in s.heap.live)
    ensures Inv(DoRealloc(s, b, size, junk, junk').0.heap)
  {
    hide Core, DoFree, DoMalloc;
    if size == 0 {
      if b.Some? {
        FreedFacts(s, b.value, junk);
      }
    } else if b.Some? {
      ReallocKeeps(s, b.value, size, junk, junk');
    } else {
      MallocFacts(s, size, junk);
    }
  }

  lemma NextInv(s: State, e: Event)
    requires Inv(s.heap)
    ensures Inv(Next(s, e).heap)
  {
    hide Inv, DoFree, DoMalloc, DoRealloc, DoGet, DoPut;
    if Allowed(s.heap, e.call) {
      match e.call
      case CMalloc(size) => MallocFacts(s, size, e.junk);
      case CFree(b) =>
        if b.Some? {
          FreedFacts(s, b.value, e.junk);
        }
      case CRealloc(b, size) => ReallocInv(s, b, size, e.junk, e.junk');
      case CStore(a, i, v) =>
      case CGet(n) => GetInv(s, n, e.junk);
      case CPut(p) => PutInv(s, p, e.junk);
    }
  }

  lemma NextKept(s: State, e: Event, a: nat)
    requires Inv(s.heap) && a in s.heap.live && !About(e.call, a)
    ensures Kept(s, Next(s, e), a)
  {
    hide Inv, DoFree, DoMalloc, DoRealloc, DoGet, DoPut, Kept;
    if !Allowed(s.heap, e.call) {
      KeptSelf(s, a);
    } else {
      match e.call
      case CMalloc(size) => MallocKept(s, size, e.junk, a);
      case CFree(b) =>
        if b.Some? {
          FreeKept(s, b.value, e.junk, a);
        } else {
          KeptSelf(s, a);
        }
      case CRealloc(b, size) => ReallocOtherKept(s, b, size, e.junk, e.junk', a);
      case CStore(b, i, v) => StoreKept(s, b, i, v, a);
      case CGet(n) => GetInv(s, n, e.junk);
      case CPut(p) => PutInv(s, p, e.junk);
    }
  }

  ghost function Run(s: State, es: seq<Event>): (t: State)
    requires Inv(s.heap)
    ensures Inv(t.heap)
    decreases |es|
  {
    if es == [] then s
    else
      var t := Run(s, es[..|es| - 1]);
      NextInv(t, es[|es| - 1]);
      Next(t, es[|es| - 1])
  }

  /** The allocator over a pool of n free pages. */
  ghost function Initial(n: nat): (h: Heap)
    ensures Inv(h)
  {
    Heap(seq(n, _ => false), map[], seq(7, _ => []), map[])
  }

  /** In every run: a block and every byte of it stay as they are as long as no call is about it. */
  lemma {:induction false} RunKept(s: State, es: seq<Event>, a: nat)
    requires Inv(s.heap) && a in s.heap.live
    requires forall i :: 0 <= i < |es| ==> !About(es[i].call, a)
    ensures Kept(s, Run(s, es), a)
    decreases |es|
  {
    hide Inv, Next, Kept;
    if es == [] {
      KeptSelf(s, a);
    } else {
      var t := Run(s, es[..|es| - 1]);
      RunKept(s, es[..|es| - 1], a);
      KeptLive(s, t, a);
      NextInv(t, es[|es| - 1]);
      NextKept(t, es[|es| - 1], a);
      KeptTwice(s, t, Next(t, es[|es| - 1]), a);
    }
  }

  lemma KeptLive(s: State, t: State, a: nat)
    requires Kept(s, t, a)
    ensures a in t.heap.live
  {
  }

  /** In every run: blocks that clients hold are at least as large as was asked for, lie in pages that
      the allocator has, clear of its headers and of free blocks, and do not overlap. */
  lemma RunDisjoint(n: nat, mem: Memory, es: seq<Event>, a: nat, x: nat)
    ensures var h := Run(State(Initial(n), mem), es).heap;
      a in h.live ==>
        && Page(a) in h.chunks && 0 < h.live[a] <= Capacity(h, a)
        && (Extent(h, a, x) ==>
              && Page(x) < |h.used| && h.used[Page(x)]
              && (forall b :: b in h.live && Extent(h, b, x) ==> a == b)
              && (forall p :: p in h.chunks ==> !HeaderByte(p, x))
              && (forall d, b :: 0 <= d < 7 && b in h.free[d] ==> !(b <= x < b + Size(d))))
  {
    var h := Run(State(Initial(n), mem), es).heap;
    hide Run, Initial;
    if a in h.live {
      assert Held(h, a, h.live[a]);
      if Extent(h, a, x) {
        ExtentPage(h, a, x);
        assert AllAre(h.used, Page(a), Pages(h.chunks[Page(a)]), true);
        hide Inv, Page, Extent, Size;
        forall b | b in h.live && Extent(h, b, x) ensures a == b {
          LiveApart(h, a, b, x);
        }
        forall p | p in h.chunks ensures !HeaderByte(p, x) {
          HeaderApart(h, a, p, x);
        }
        forall d, b | 0 <= d < 7 && b in h.free[d] ensures !(b <= x < b + Size(d)) {
          FreeApart(h, a, d, b, x);
        }
      }
    }
  }

  /** In every run: once the clients have freed all their blocks, the allocator holds no page. */
  lemma AllReturned(n: nat, mem: Memory, es: seq<Event>)
    ensures var h := Run(State(Initial(n), mem), es).heap;
      h.live == map[] ==> forall p :: p in h.chunks ==> h.chunks[p].Foreign?
  {
    var h := Run(State(Initial(n), mem), es).heap;
    hide Run, Initial;
    if h.live == map[] {
      forall p | p in h.chunks ensures h.chunks[p].Foreign? {
        if h.chunks[p].Small? {
          CountAtMost(h, p);
        }
      }
    }
  }

  // ---------------------------------------------------------------- the code, in place

  /** malloc_init(): the loop finds the seven block sizes. */
  method MallocInit() returns (descs: seq<(nat, nat)>)
    ensures |descs| == 7 && forall d: nat :: d < 7 ==> descs[d] == (Size(d), Per(d))
  {
    descs := [];
    var blockSize := 16;
    while blockSize < 4096 / 2
      invariant |descs| <= 7 && blockSize == if |descs| == 7 then 2048 else Size(|descs|)
      invariant forall d: nat :: d < |descs| ==> descs[d] == (Size(d), Per(d))
      decreases 7 - |descs|
    {
      descs := descs + [(blockSize, (4096 - 12) / blockSize)];
      blockSize := blockSize * 2;
    }
  }

  /** q without the blocks in "drop". */
  function Minus(q: seq<nat>, drop: seq<nat>): seq<nat> {
    if q == [] then []
    else if q[|q| - 1] in drop then Minus(q[..|q| - 1], drop)
    else Minus(q[..|q| - 1], drop) + [q[|q| - 1]]
  }

  lemma {:induction false} MinusNothing(q: seq<nat>)
    ensures Minus(q, []) == q
    decreases |q|
  {
    if q != [] {
      MinusNothing(q[..|q| - 1]);
    }
  }

  lemma {:induction false} MinusElems(q: seq<nat>, drop: seq<nat>, b: nat)
    ensures b in Minus(q, drop) <==> b in q && b !in drop
    decreases |q|
  {
    if q != [] {
      MinusElems(q[..|q| - 1], drop, b);
    }
  }

  lemma {:induction false} MinusAbsent(q: seq<nat>, drop: seq<nat>, b: nat)
    requires b !in q
    ensures Minus(q, drop + [b]) == Minus(q, drop)
    decreases |q|
  {
    if q != [] {
      MinusAbsent(q[..|q| - 1], drop, b);
    }
  }

  /** list_remove() of one more block. */
  lemma {:induction false} RemoveStep(q: seq<nat>, drop: seq<nat>, b: nat, i: nat)
    requires NoDup(q) && i < |Minus(q, drop)| && Minus(q, drop)[i] == b
    ensures var m := Minus(q, drop); m[..i] + m[i + 1..] == Minus(q, drop + [b])
    decreases |q|
  {
    var r, last := q[..|q| - 1], q[|q| - 1];
    var m := Minus(q, drop);
    assert last !in r;
    if last in drop {
      RemoveStep(r, drop, b, i);
    } else if i == |m| - 1 {
      MinusAbsent(r, drop, b);
      assert m[..i] + m[i + 1..] == Minus(r, drop);
    } else {
      assert b in Minus(r, drop);
      MinusElems(r, drop, b);
      RemoveStep(r, drop, b, i);
      var k := Minus(r, drop);
      assert m[..i] + m[i + 1..] == k[..i] + k[i + 1..] + [last];
    }
  }

  /** Without all blocks of an arena, a list is without its page. */
  lemma {:induction false} MinusArena(q: seq<nat>, p: nat, d: nat)
    requires d < 7 && forall b :: b in q && Page(b) == p ==> IsBlk(b, d)
    ensures Minus(q, Cut(p, d, Per(d))) == Purge(q, p)
    decreases |q|
  {
    if q != [] {
      CutAll(p, d);
      MinusArena(q[..|q| - 1], p, d);
      hide Cut, IsBlk, Page;
    }
  }

  class Allocator {
    var used: seq<bool>
    var chunks: map<nat, Chunk>
    var free: seq<seq<nat>>
    ghost var live: map<nat, nat>

    ghost function Contents(): Heap
      reads this
    {
      Heap(used, chunks, free, live)
    }

    /** The loop that finds the descriptor. */
    method FindDesc(size: nat) returns (d: nat)
      ensures d == DescFor(size)
    {
      d := 0;
      while d < 7 && Size(d) < size
        invariant d <= 7 && forall e :: 0 <= e < d ==> Size(e) < size
      {
        d := d + 1;
      }
      DescUnique(size, d);
    }

    /** malloc() sets up an arena in page p: the loop lists its blocks. */
    method MakeArena(d: nat, p: nat)
      requires d < 7 && |free| == 7 && free[d] == [] && p < |used|
      modifies this`used, this`chunks, this`free
      ensures Contents() == NewArena(old(Contents()), d, p)
    {
      used := Marked(used, p, 1, true);
      chunks := chunks[p := Small(d, Per(d))];
      for i := 0 to Per(d)
        modifies this`free
        invariant |free| == 7 && free[d] == Cut(p, d, i)
        invariant forall e :: 0 <= e < 7 && e != d ==> free[e] == old(free)[e]
      {
        free := free[d := free[d] + [Blk(p, d, i)]];
      }
      assert free == old(free)[d := Cut(p, d, Per(d))];
    }

    /** malloc(). */
    method DoMalloc(size: nat) returns (r: Option<nat>)
      requires Inv(Contents())
      modifies this
      ensures Inv(Contents()) && (Contents(), r) == Malloc(old(Contents()), size)
    {
      MallocGives(Contents(), size);
      assert |free| == 7;
      hide Inv, Core, MallocOk;
      if size == 0 {
        return None;
      }
      var d := FindDesc(size);
      if d == 7 {
        r := MallocPages(size);
      } else {
        r := MallocSmall(d, size);
      }
    }

    method MallocSmall(d: nat, size: nat) returns (r: Option<nat>)
      requires Inv(Contents()) && |free| == 7 && size > 0 && d == DescFor(size) < 7
      modifies this
      ensures (Contents(), r) == Malloc(old(Contents()), size)
    {
      hide PageInv, ListInv, ArenaInv, LiveInv, DescFor;
      ghost var h := Contents();
      if free[d] == [] {
        var page := Scan(used, 0, 1, false);
        if page == None {
          return None;
        }
        ArenaReady(h, d, page.value);
        MakeArena(d, page.value);
      } else {
        PopReady(h, d);
      }
      hide NewArena, Pop, CanPop;
      r := PopBlock(d, size);
    }

    /** The case of a request that is too large for the descriptors. */
    method MallocPages(size: nat) returns (r: Option<nat>)
      requires Inv(Contents()) && size > 0 && DescFor(size) == 7
      modifies this
      ensures (Contents(), r) == Malloc(old(Contents()), size)
    {
      var pages := (size + 12 + 4095) / 4096;
      var page := Scan(used, 0, pages, false);
      if page == None {
        return None;
      }
      used := Marked(used, page.value, pages, true);
      chunks := chunks[page.value := Big(pages)];
      live := live[BigAddr(page.value) := size];
      return Some(4096 * page.value + 12);
    }

    /** free(): the assertions of block_to_arena() hold, and so does the one on free_cnt. */
    method DoFree(a: nat)
      requires Inv(Contents()) && a in live
      modifies this
      ensures Inv(Contents()) && Contents() == Free(old(Contents()), a)
    {
      FreeInv(Contents(), a);
      assert Held(Contents(), a, live[a]);
      var p := Page(a);
      var c := chunks[p];
      if c.Big? {
        ChunkHere(Contents(), p);
        hide Inv, Core, Held, Page;
        used := Marked(used, p, c.pages, false);
        chunks := chunks - {p};
        live := live - {a};
      } else {
        assert (a % 4096 - 12) % Size(c.desc) == 0;
        FreeSmall(Contents(), a);
        hide Inv, Page, Per, Held;
        ghost var h := Contents();
        free := free[c.desc := [a] + free[c.desc]];
        chunks := chunks[p := Small(c.desc, c.freeCnt + 1)];
        live := live - {a};
        assert Contents() == Push(h, a);
        if c.freeCnt + 1 >= Per(c.desc) {
          assert c.freeCnt + 1 == Per(c.desc);
          UnlistBlocks(c.desc, p);
          ChunkHere(Push(h, a), p);
          used := Marked(used, p, 1, false);
          chunks := chunks - {p};
        }
      }
    }

    /** The loop in which free() takes the blocks of an empty arena off the free list: each is there. */
    method UnlistBlocks(d: nat, p: nat)
      requires Core(Contents()) && d < 7 && p in chunks && chunks[p] == Small(d, Per(d))
      modifies this`free
      ensures |old(free)| == 7 && free == old(free)[d := Purge(old(free)[d], p)]
    {
      ghost var q := free[d];
      ArenaAllFree(Contents(), p, d);
      hide Core;
      MinusNothing(q);
      for i := 0 to Per(d)
        invariant |free| == 7 && free[d] == Minus(q, Cut(p, d, i))
        invariant forall e :: 0 <= e < 7 && e != d ==> free[e] == old(free)[e]
      {
        var b := Blk(p, d, i);
        BlockListed(q, p, d, i);
        var k :| 0 <= k < |free[d]| && free[d][k] == b;
        RemoveStep(q, Cut(p, d, i), b, k);
        free := free[d := free[d][..k] + free[d][k + 1..]];
      }
      MinusArena(q, p, d);
      assert free == old(free)[d := Purge(q, p)];
    }

    /** The end of malloc(): the first free block goes to the caller. */
    method PopBlock(d: nat, size: nat) returns (r: Option<nat>)
      requires CanPop(Contents(), d)
      modifies this
      ensures Contents() == Pop(old(Contents()), d, size) && r == Some(old(free)[d][0])
    {
      var b := free[d][0];
      free := free[d := free[d][1..]];
      var a := chunks[Page(b)];
      chunks := chunks[Page(b) := Small(d, a.freeCnt - 1)];
      live := live[b := size];
      return Some(b);
    }
  }

  /** An arena whose count is full has all its blocks on the list. */
  lemma ArenaAllFree(h: Heap, p: nat, d: nat)
    requires Core(h) && d < 7 && p in h.chunks && h.chunks[p] == Small(d, Per(d))
    ensures |h.free| == 7 && NoDup(h.free[d])
    ensures forall b :: SlotOf(b, p, d) ==> b in h.free[d]
    ensures forall b :: b in h.free[d] && Page(b) == p ==> IsBlk(b, d)
  {
    var q := h.free[d];
    assert ArenaOk(h, p, d, Per(d));
    forall b | b in q && Page(b) == p ensures IsBlk(b, d) {
      assert InArena(h.chunks, b, d);
    }
    FreeAtMost(q, p, d);
  }

  lemma BlockListed(q: seq<nat>, p: nat, d: nat, i: nat)
    requires d < 7 && i < Per(d) && forall b :: SlotOf(b, p, d) ==> b in q
    ensures Blk(p, d, i) in Minus(q, Cut(p, d, i)) && Cut(p, d, i) + [Blk(p, d, i)] == Cut(p, d, i + 1)
  {
    var b := Blk(p, d, i);
    BlkFacts(p, d, i);
    CutIs(p, d, i);
    MinusElems(q, Cut(p, d, i), b);
    assert SlotOf(b, p, d);
  }

  lemma DescUnique(size: nat, d: nat)
    requires d <= 7 && (forall e :: 0 <= e < d ==> Size(e) < size) && (d < 7 ==> size <= Size(d))
    ensures d == DescFor(size)
  {
  }
}
