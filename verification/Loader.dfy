/** The executable loader of userprog/process.c. */
module Loader {
  /*
   The loader in process.c: program headers become pages of a new address space. The model starts at
   the program headers, each of which could be read or not, with a page directory that maps no user
   page yet; unsigned 32-bit arithmetic wraps. Pages come from two pools that may run dry: frames from
   the user pool, page tables from the kernel pool.
   */

  import opened Common
  import opened PageDir
  import opened AddressSpace

  /** struct Elf32_Phdr. */
  datatype Phdr = Phdr(kind: U32, offset: U32, vaddr: U32, filesz: U32, memsz: U32, flags: U32)

  const PT_LOAD := 1
  const PT_DYNAMIC := 2
  const PT_INTERP := 3
  const PT_SHLIB := 5

  // ---------------------------------------------------------------- segment arithmetic

  function Add32(a: U32, b: U32): U32 {
    (a + b) % 0x1_0000_0000
  }

  function Sub32(a: U32, b: U32): U32 {
    (a - b) % 0x1_0000_0000
  }

  /** ROUND_UP to the page size. */
  function RoundUp32(x: U32): U32 {
    Add32(x, 4095) / 4096 * 4096
  }

  /** validate_segment(). */
  predicate ValidSegment(ph: Phdr, len: nat) {
    && ph.offset % 4096 == ph.vaddr % 4096
    && ph.offset <= len
    && ph.memsz >= ph.filesz
    && ph.memsz != 0
    && ph.vaddr < 0xc000_0000
    && Add32(ph.vaddr, ph.memsz) < 0xc000_0000
    && Add32(ph.vaddr, ph.memsz) >= ph.vaddr
    && ph.vaddr >= 4096
  }

  /** The arguments that load() computes for load_segment(). */
  datatype Plan = Plan(filePage: U32, memPage: U32, read: U32, zero: U32)

  function PlanOf(ph: Phdr): Plan {
    var inPage := ph.vaddr % 4096;
    var read := if ph.filesz > 0 then Add32(inPage, ph.filesz) else 0;
    Plan(ph.offset - ph.offset % 4096, ph.vaddr - ph.vaddr % 4096, read,
         if ph.filesz > 0 then Sub32(RoundUp32(Add32(inPage, ph.memsz)), read) else RoundUp32(Add32(inPage, ph.memsz)))
  }

  /** The pages of a segment. */
  function FirstPage(ph: Phdr): nat {
    ph.vaddr / 4096
  }

  function PageCount(ph: Phdr): nat {
    (ph.vaddr % 4096 + ph.memsz + 4095) / 4096
  }

  /** No sum or difference wraps, the assertions of load_segment() hold, and the segment's pages lie in
      user space above page 0. */
  lemma PlanExact(ph: Phdr, len: nat)
    requires ValidSegment(ph, len)
    ensures var p := PlanOf(ph);
      && p.filePage + ph.vaddr % 4096 == ph.offset && p.filePage % 4096 == 0
      && p.memPage == 4096 * FirstPage(ph)
      && p.read == (if ph.filesz > 0 then ph.vaddr % 4096 + ph.filesz else 0)
      && p.read + p.zero == 4096 * PageCount(ph) && PageCount(ph) > 0
      && 1 <= FirstPage(ph) && FirstPage(ph) + PageCount(ph) <= 0xc0000
  {
    NoWrapEnd(ph, len);
    var inPage := ph.vaddr % 4096;
    assert Add32(inPage, ph.memsz) == inPage + ph.memsz;
    assert RoundUp32(inPage + ph.memsz) == 4096 * PageCount(ph);
  }

  lemma NoWrapEnd(ph: Phdr, len: nat)
    requires ValidSegment(ph, len)
    ensures ph.vaddr + ph.memsz < 0xc000_0000
    ensures FirstPage(ph) + PageCount(ph) <= 0xc0000
  {
  }

  // ---------------------------------------------------------------- what a segment should hold

  /** Byte j of the region: from the file, then zeros. */
  function SegByte(file: seq<Byte>, ofs: nat, read: nat, j: nat): Byte {
    if j < read && ofs + j < |file| then file[ofs + j] else 0
  }

  function PageBytes(file: seq<Byte>, ofs: nat, read: nat, k: nat): (b: seq<Byte>)
    ensures |b| == 4096 && forall i :: 0 <= i < 4096 ==> b[i] == SegByte(file, ofs, read, 4096 * k + i)
  {
    seq<Byte>(4096, i requires 0 <= i < 4096 => SegByte(file, ofs, read, 4096 * k + i))
  }

  /** r is s with the first n pages of a region added, none of which was there. */
  ghost predicate Added(s: Space, r: Space, file: seq<Byte>, ofs: nat, base: nat, n: nat, read: nat, writable: bool) {
    && (forall p :: p in s ==> p in r && r[p] == s[p])
    && (forall p :: p in r ==> p in s || base <= p < base + n)
    && (forall p :: base <= p < base + n ==>
          p !in s && p in r && r[p] == Frame(PageBytes(file, ofs, read, p - base), writable))
  }

  /** The page tables that the pages of a region need. */
  function RegionTables(base: nat, n: nat): set<nat> {
    set p | base <= p < base + n :: p / 1024
  }

  /** What is left: user pages, and page tables counted with those in use. */
  datatype Budget = Budget(pages: nat, tables: nat)

  /** There are a frame, a page table and the page to be had. */
  ghost predicate Room(s: Space, left: Budget, page: nat) {
    left.pages > 0 && page !in s && |Tables(s) + {page / 1024}| <= left.tables
  }

  /** When load_segment() succeeds: there are frames and page tables enough, the file has the bytes, and no
      page is taken. */
  ghost predicate Fits(s: Space, m: Budget, len: nat, ofs: nat, base: nat, n: nat, read: nat) {
    && n <= m.pages
    && |Tables(s) + RegionTables(base, n)| <= m.tables
    && (read > 0 ==> ofs + read <= len)
    && forall p :: base <= p < base + n ==> p !in s
  }

  /** file_read() of n bytes at pos. */
  function FileRead(file: seq<Byte>, pos: nat, n: nat): seq<Byte> {
    if pos >= |file| then [] else file[pos..Min(pos + n, |file|)]
  }

  /** The page that the loop fills is the region's next page. */
  lemma FilledPage(file: seq<Byte>, ofs: nat, read: nat, k: nat)
    requires var n := Min(Rest(read, k), 4096); |FileRead(file, ofs + Min(read, 4096 * k), n)| == n
    ensures var n := Min(Rest(read, k), 4096);
      FileRead(file, ofs + Min(read, 4096 * k), n) + Zeros(4096 - n) == PageBytes(file, ofs, read, k)
  {
  }

  lemma AddedStep(s: Space, r: Space, file: seq<Byte>, ofs: nat, base: nat, k: nat, read: nat, writable: bool)
    requires Added(s, r, file, ofs, base, k, read, writable) && base + k !in r
    ensures Added(s, r[base + k := Frame(PageBytes(file, ofs, read, k), writable)], file, ofs, base, k + 1, read, writable)
  {
    hide PageBytes;
  }

  // ---------------------------------------------------------------- all program headers

  predicate IsLoad(hs: seq<Option<Phdr>>, i: nat) {
    i < |hs| && hs[i].Some? && hs[i].value.kind == PT_LOAD
  }

  predicate InSeg(ph: Phdr, p: nat) {
    FirstPage(ph) <= p < FirstPage(ph) + PageCount(ph)
  }

  /** A header that load() can go on from, if there is memory and room. */
  predicate HeaderOk(h: Option<Phdr>, len: nat) {
    && h.Some? && h.value.kind != PT_DYNAMIC && h.value.kind != PT_INTERP && h.value.kind != PT_SHLIB
    && (h.value.kind == PT_LOAD ==>
          ValidSegment(h.value, len) && (h.value.filesz > 0 ==> h.value.offset + h.value.filesz <= len))
  }

  function TotalPages(hs: seq<Option<Phdr>>, n: nat): nat
    requires n <= |hs|
  {
    if n == 0 then 0 else TotalPages(hs, n - 1) + (if IsLoad(hs, n - 1) then PageCount(hs[n - 1].value) else 0)
  }

  /** The page tables that the first n segments need. */
  function SegTables(hs: seq<Option<Phdr>>, n: nat): set<nat>
    requires n <= |hs|
  {
    if n == 0 then {}
    else if IsLoad(hs, n - 1) then SegTables(hs, n - 1) + RegionTables(FirstPage(hs[n - 1].value), PageCount(hs[n - 1].value))
    else SegTables(hs, n - 1)
  }

  /** No two of the first n segments share a page. */
  ghost predicate Disjoint(hs: seq<Option<Phdr>>, n: nat) {
    forall i: nat, j: nat, p: nat :: i < j < n && IsLoad(hs, i) && IsLoad(hs, j) && InSeg(hs[i].value, p) ==> !InSeg(hs[j].value, p)
  }

  const STACK_PAGE: nat := 0xbffff

  /** When load() succeeds. */
  ghost predicate Loadable(hs: seq<Option<Phdr>>, len: nat, m: Budget) {
    && (forall i: nat :: i < |hs| ==> HeaderOk(hs[i], len))
    && Disjoint(hs, |hs|)
    && (forall i: nat :: IsLoad(hs, i) ==> !InSeg(hs[i].value, STACK_PAGE))
    && TotalPages(hs, |hs|) + 1 <= m.pages
    && |SegTables(hs, |hs|) + {STACK_PAGE / 1024}| <= m.tables
  }

  /** What page p of a segment should hold. */
  function SegPage(file: seq<Byte>, ph: Phdr, p: nat): Frame
    requires InSeg(ph, p)
  {
    Frame(PageBytes(file, PlanOf(ph).filePage, PlanOf(ph).read, p - FirstPage(ph)), ph.flags / 2 % 2 != 0)
  }

  ghost predicate FromSegment(hs: seq<Option<Phdr>>, n: nat, p: nat) {
    exists i: nat :: i < n && IsLoad(hs, i) && InSeg(hs[i].value, p)
  }

  /** The address space consists of the pages of the first n segments. */
  ghost predicate Done(s: Space, file: seq<Byte>, hs: seq<Option<Phdr>>, n: nat) {
    && (forall p :: p in s ==> FromSegment(hs, n, p))
    && (forall i: nat, p: nat :: i < n && IsLoad(hs, i) && InSeg(hs[i].value, p) ==> p in s && s[p] == SegPage(file, hs[i].value, p))
  }

  /** The byte at a user address. */
  function ByteOf(s: Space, va: nat): Option<Byte> {
    if va / 4096 in s && va % 4096 < |s[va / 4096].bytes| then Some(s[va / 4096].bytes[va % 4096]) else None
  }

  /** Byte j of a segment, as the ELF specification has it: from the file, then zeros. */
  function Wanted(file: seq<Byte>, ph: Phdr, j: nat): Byte {
    if j < ph.filesz && ph.offset + j < |file| then file[ph.offset + j] else 0
  }

  predicate WritableAt(s: Space, va: nat) {
    va / 4096 in s && s[va / 4096].writable
  }

  /** Every byte of every segment is where it belongs, in a page that is writable just if the segment
      is; the stack page is zero and writable; and there is no other page, none outside user space
      and none at 0. */
  ghost predicate Realised(s: Space, file: seq<Byte>, hs: seq<Option<Phdr>>) {
    && (forall i: nat, j: nat :: IsLoad(hs, i) && j < hs[i].value.memsz ==> SegmentByte(s, file, hs[i].value, j))
    && STACK_PAGE in s && s[STACK_PAGE] == Frame(Zeros(4096), true)
    && (forall p :: p in s ==> 1 <= p < 0xc0000 && (p == STACK_PAGE || FromSegment(hs, |hs|, p)))
  }

  ghost predicate SegmentByte(s: Space, file: seq<Byte>, ph: Phdr, j: nat) {
    && ByteOf(s, ph.vaddr + j) == Some(Wanted(file, ph, j))
    && (WritableAt(s, ph.vaddr + j) <==> ph.flags / 2 % 2 != 0)
    && (j < ph.filesz ==> ph.offset + j < |file|)
  }

  ghost predicate UpTo(hs: seq<Option<Phdr>>, len: nat, n: nat, m: Budget) {
    n <= |hs| && (forall i: nat :: i < n ==> HeaderOk(hs[i], len)) && Disjoint(hs, n) && TotalPages(hs, n) <= m.pages
  }

  /** The budget after the first n segments. */
  ghost function After(m: Budget, hs: seq<Option<Phdr>>, n: nat): Budget
    requires n <= |hs| && TotalPages(hs, n) <= m.pages
  {
    Budget(m.pages - TotalPages(hs, n), m.tables)
  }

  // ---------------------------------------------------------------- the same, as a caller sees it

  /** A header that load() accepts, in plain numbers: it is readable; it is no dynamic, interpreter or shared
      library header; and a segment is congruent to its place in the file, not empty, not shorter in memory than in
      the file, above page 0 and below the kernel, and in the file as far as it comes from there. */
  predicate HeaderFine(h: Option<Phdr>, len: nat) {
    && h.Some? && h.value.kind != 2 && h.value.kind != 3 && h.value.kind != 5
    && (h.value.kind == 1 ==>
          var ph := h.value;
          && ph.offset % 4096 == ph.vaddr % 4096 && ph.offset <= len
          && 0 < ph.memsz && ph.filesz <= ph.memsz
          && 4096 <= ph.vaddr && ph.vaddr + ph.memsz < 0xc000_0000
          && (ph.filesz > 0 ==> ph.offset + ph.filesz <= len))
  }

  /** Some byte of the segment is in page p. */
  ghost predicate Touches(h: Option<Phdr>, p: nat) {
    && h.Some? && h.value.kind == 1
    && exists va: nat :: h.value.vaddr <= va < h.value.vaddr + h.value.memsz && InPage(va, p)
  }

  predicate InPage(va: nat, p: nat) {
    4096 * p <= va < 4096 * p + 4096
  }

  /** The pages that the first n segments touch. */
  ghost function PagesOf(hs: seq<Option<Phdr>>, n: nat): set<nat> {
    set p: nat | p < 0xc0000 && Touched(hs, n, p)
  }

  ghost predicate Touched(hs: seq<Option<Phdr>>, n: nat, p: nat) {
    exists i: nat :: i < n && i < |hs| && Touches(hs[i], p)
  }

  /** When load() succeeds: all headers are fine, no two segments touch the same page, none the stack's, and there
      are frames for all pages and page tables for all ranges of 1024 pages among them. */
  ghost predicate Loads(hs: seq<Option<Phdr>>, len: nat, m: Budget) {
    && (forall i: nat :: i < |hs| ==> HeaderFine(hs[i], len))
    && (forall i: nat, j: nat, p: nat :: i < j < |hs| && Touches(hs[i], p) ==> !Touches(hs[j], p))
    && (forall i: nat :: i < |hs| ==> !Touches(hs[i], 0xbffff))
    && var pages := PagesOf(hs, |hs|) + {0xbffff};
       |pages| <= m.pages && |TablesOf(pages)| <= m.tables
  }

  function TablesOf(pages: set<nat>): set<nat> {
    set p | p in pages :: p / 1024
  }

  lemma HeaderMeans(h: Option<Phdr>, len: nat)
    ensures HeaderOk(h, len) <==> HeaderFine(h, len)
  {
    if h.Some? && h.value.kind == 1 {
      ValidMeans(h.value, len);
    }
    hide ValidSegment;
  }

  lemma ValidMeans(ph: Phdr, len: nat)
    ensures ValidSegment(ph, len) <==>
      && ph.offset % 4096 == ph.vaddr % 4096 && ph.offset <= len && 0 < ph.memsz && ph.filesz <= ph.memsz
      && 4096 <= ph.vaddr && ph.vaddr + ph.memsz < 0xc000_0000
  {
  }

  /** The pages of a segment are those that its bytes are in. */
  lemma TouchesMeans(h: Option<Phdr>, len: nat, p: nat)
    requires HeaderFine(h, len)
    ensures Touches(h, p) <==> h.value.kind == 1 && InSeg(h.value, p)
    ensures Touches(h, p) ==> p < 0xc0000
  {
    if h.value.kind == 1 {
      var ph := h.value;
      if InSeg(ph, p) {
        var va := if 4096 * p <= ph.vaddr then ph.vaddr else 4096 * p;
        assert ph.vaddr <= va < ph.vaddr + ph.memsz && InPage(va, p);
      }
      if Touches(h, p) {
        var va: nat :| ph.vaddr <= va < ph.vaddr + ph.memsz && InPage(va, p);
        assert va / 4096 == p;
      }
    }
  }

  function Range(base: nat, n: nat): set<nat> {
    if n == 0 then {} else Range(base, n - 1) + {base + n - 1}
  }

  lemma {:induction false} RangeIs(base: nat, n: nat)
    ensures |Range(base, n)| == n && forall p :: p in Range(base, n) <==> base <= p < base + n
  {
    if n > 0 {
      RangeIs(base, n - 1);
    }
  }

  lemma TouchedStep(hs: seq<Option<Phdr>>, n: nat, p: nat)
    requires n < |hs|
    ensures Touched(hs, n + 1, p) <==> Touched(hs, n, p) || Touches(hs[n], p)
  {
    hide Touches;
    if Touched(hs, n, p) {
      var i: nat :| i < n && i < |hs| && Touches(hs[i], p);
      assert i < n + 1 && Touches(hs[i], p);
    }
  }

  /** The pages that segment n has for itself. */
  function OwnPages(hs: seq<Option<Phdr>>, n: nat): set<nat> {
    if IsLoad(hs, n) then Range(FirstPage(hs[n].value), PageCount(hs[n].value)) else {}
  }

  lemma OwnPagesAre(hs: seq<Option<Phdr>>, len: nat, n: nat, p: nat)
    requires n < |hs| && HeaderFine(hs[n], len)
    ensures Touches(hs[n], p) <==> p in OwnPages(hs, n)
    ensures p in OwnPages(hs, n) ==> p < 0xc0000 && IsLoad(hs, n) && InSeg(hs[n].value, p)
    ensures IsLoad(hs, n) && InSeg(hs[n].value, p) ==> p in OwnPages(hs, n)
  {
    TouchesMeans(hs[n], len, p);
    hide Touches, HeaderFine, FirstPage, PageCount;
    if IsLoad(hs, n) {
      RangeIs(FirstPage(hs[n].value), PageCount(hs[n].value));
    }
  }

  lemma PagesStep(hs: seq<Option<Phdr>>, len: nat, n: nat)
    requires n < |hs| && HeaderFine(hs[n], len)
    ensures PagesOf(hs, n + 1) == PagesOf(hs, n) + OwnPages(hs, n)
  {
    hide Touched, HeaderFine, OwnPages;
    forall p: nat ensures p in PagesOf(hs, n + 1) <==> p in PagesOf(hs, n) || p in OwnPages(hs, n) {
      TouchedStep(hs, n, p);
      OwnPagesAre(hs, len, n, p);
    }
  }

  lemma {:induction false} TouchedIs(hs: seq<Option<Phdr>>, len: nat, n: nat, p: nat)
    requires n <= |hs| && forall i: nat :: i < |hs| ==> HeaderFine(hs[i], len)
    ensures Touched(hs, n, p) <==> FromSegment(hs, n, p)
    decreases n
  {
    if n > 0 {
      hide HeaderFine, Touches, InSeg, OwnPages;
      TouchedIs(hs, len, n - 1, p);
      TouchedStep(hs, n - 1, p);
      FromStep(hs, n - 1, p);
      OwnPagesAre(hs, len, n - 1, p);
    }
  }

  /** The pages counted are the pages touched. */
  lemma {:induction false} PagesMeans(hs: seq<Option<Phdr>>, len: nat, n: nat)
    requires n <= |hs| && Disjoint(hs, n) && forall i: nat :: i < |hs| ==> HeaderFine(hs[i], len)
    ensures |PagesOf(hs, n)| == TotalPages(hs, n)
  {
    if n == 0 {
      assert PagesOf(hs, 0) == {};
    } else {
      OwnApart(hs, len, n - 1);
      hide HeaderFine, PageCount, OwnPages, PagesOf;
      PagesMeans(hs, len, n - 1);
      PagesStep(hs, len, n - 1);
      OwnSize(hs, n - 1);
      var a, r := PagesOf(hs, n - 1), OwnPages(hs, n - 1);
      assert |a + r| == |a| + |r|;
    }
  }

  lemma OwnApart(hs: seq<Option<Phdr>>, len: nat, n: nat)
    requires n < |hs| && Disjoint(hs, n + 1) && forall i: nat :: i < |hs| ==> HeaderFine(hs[i], len)
    ensures PagesOf(hs, n) !! OwnPages(hs, n)
  {
    hide HeaderFine, Touched, FromSegment, OwnPages, Disjoint;
    forall p | p in PagesOf(hs, n) ensures p !in OwnPages(hs, n) {
      TouchedIs(hs, len, n, p);
      ApartFrom(hs, len, n, p);
    }
  }

  lemma OwnSize(hs: seq<Option<Phdr>>, n: nat)
    requires n < |hs|
    ensures |OwnPages(hs, n)| == if IsLoad(hs, n) then PageCount(hs[n].value) else 0
  {
    if IsLoad(hs, n) {
      RangeIs(FirstPage(hs[n].value), PageCount(hs[n].value));
    }
  }

  lemma ApartFrom(hs: seq<Option<Phdr>>, len: nat, n: nat, p: nat)
    requires n < |hs| && Disjoint(hs, n + 1) && FromSegment(hs, n, p) && HeaderFine(hs[n], len)
    ensures p !in OwnPages(hs, n)
  {
    OwnPagesAre(hs, len, n, p);
    hide OwnPages, InSeg, HeaderFine;
    var i: nat :| i < n && IsLoad(hs, i) && InSeg(hs[i].value, p);
  }

  lemma FromStep(hs: seq<Option<Phdr>>, n: nat, p: nat)
    requires n < |hs|
    ensures FromSegment(hs, n + 1, p) <==> FromSegment(hs, n, p) || (IsLoad(hs, n) && InSeg(hs[n].value, p))
  {
    hide InSeg;
    if FromSegment(hs, n, p) {
      FromSegmentMore(hs, n, p);
    }
  }

  lemma TablesMeans(hs: seq<Option<Phdr>>, len: nat)
    requires forall i: nat :: i < |hs| ==> HeaderFine(hs[i], len)
    ensures TablesOf(PagesOf(hs, |hs|) + {STACK_PAGE}) == SegTables(hs, |hs|) + {STACK_PAGE / 1024}
  {
    hide HeaderFine, FromSegment, Touched;
    var pages := PagesOf(hs, |hs|) + {STACK_PAGE};
    assert STACK_PAGE in pages;
    forall i: nat ensures i in TablesOf(pages) <==> i in SegTables(hs, |hs|) || i == STACK_PAGE / 1024 {
      SegTablesAre(hs, |hs|, i);
      if p: nat :| FromSegment(hs, |hs|, p) && p / 1024 == i {
        SegmentInUser(hs, len, p);
        TouchedIs(hs, len, |hs|, p);
        assert p in pages;
      }
      if i in TablesOf(pages) {
        var p :| p in pages && p / 1024 == i;
        TouchedIs(hs, len, |hs|, p);
      }
    }
  }

  lemma SegmentInUser(hs: seq<Option<Phdr>>, len: nat, p: nat)
    requires FromSegment(hs, |hs|, p) && forall i: nat :: i < |hs| ==> HeaderFine(hs[i], len)
    ensures p < 0xc0000
  {
    var i: nat :| i < |hs| && IsLoad(hs, i) && InSeg(hs[i].value, p);
    TouchesMeans(hs[i], len, p);
  }

  lemma DisjointMeans(hs: seq<Option<Phdr>>, len: nat)
    requires forall i: nat :: i < |hs| ==> HeaderFine(hs[i], len)
    ensures Disjoint(hs, |hs|)
      <==> forall i: nat, j: nat, p: nat :: i < j < |hs| && Touches(hs[i], p) ==> !Touches(hs[j], p)
    ensures forall i: nat, p: nat :: i < |hs| ==> (Touches(hs[i], p) <==> IsLoad(hs, i) && InSeg(hs[i].value, p))
  {
    hide Touches, HeaderFine, InSeg, OwnPages;
    forall i: nat, p: nat | i < |hs| ensures Touches(hs[i], p) <==> IsLoad(hs, i) && InSeg(hs[i].value, p) {
      OwnPagesAre(hs, len, i, p);
    }
  }

  /** What the loop over the headers asks for is what a caller sees. */
  lemma LoadableMeans(hs: seq<Option<Phdr>>, len: nat, m: Budget)
    ensures Loadable(hs, len, m) <==> Loads(hs, len, m)
  {
    forall i: nat | i < |hs| ensures HeaderOk(hs[i], len) <==> HeaderFine(hs[i], len) {
      HeaderMeans(hs[i], len);
    }
    hide HeaderOk, HeaderFine;
    if forall i: nat :: i < |hs| ==> HeaderFine(hs[i], len) {
      DisjointMeans(hs, len);
      if Disjoint(hs, |hs|) {
        PagesMeans(hs, len, |hs|);
        TablesMeans(hs, len);
        StackApart(hs);
      }
      hide Touches, InSeg, Disjoint, PagesOf, TablesOf, TotalPages, SegTables;
    }
  }

  lemma StackApart(hs: seq<Option<Phdr>>)
    ensures (forall i: nat :: i < |hs| ==> !Touches(hs[i], STACK_PAGE)) ==>
              |PagesOf(hs, |hs|) + {STACK_PAGE}| == |PagesOf(hs, |hs|)| + 1
  {
    if forall i: nat :: i < |hs| ==> !Touches(hs[i], STACK_PAGE) {
      assert STACK_PAGE !in PagesOf(hs, |hs|);
    }
  }

  class Process {
    const dir: Directory
    var frames: map<Word, seq<Byte>>
    var userPool: seq<Word>
    var kernelPool: seq<Word>
    ghost var space: Space

    ghost function Mem(user: seq<Word>): Memory
      reads this, dir
    {
      Memory(dir.Contents(), frames, user, kernelPool)
    }

    /** Directory, tables and frames stand for the address space, and every page is in one place. */
    ghost predicate Valid()
      reads this, dir
    {
      Sound(Mem(userPool), space)
    }

    /** The same, with a user page in hand. */
    ghost predicate Holds(kpage: Word)
      reads this, dir
    {
      Sound(Mem([kpage] + userPool), space)
    }

    ghost function Left(): Budget
      reads this
    {
      Budget(|userPool|, |kernelPool| + |Tables(space)|)
    }

    /** A new page directory maps no user page. */
    constructor (d: Directory, pages: map<Word, seq<Byte>>, user: seq<Word>, kernel: seq<Word>)
      requires Sound(Memory(d.Contents(), pages, user, kernel), map[])
      ensures Valid() && space == map[] && dir == d
    {
      dir, frames, userPool, kernelPool, space := d, pages, user, kernel, map[];
    }

    /** pagedir_set_page(), which takes a page from the kernel pool if a page table is missing. */
    method SetPageFromPool(page: nat, kpage: Word, writable: bool) returns (ok: bool)
      requires PageDir.Valid(dir.Contents()) && IsSpare(dir.Contents(), First(kernelPool)) && Aligned(kpage)
      requires page < 0xc0000 && Lookup(dir.Contents(), page) == None
      modifies this`kernelPool, dir
      ensures ok == old(CanSet(dir.Contents(), page, First(kernelPool)))
      ensures if ok
        then dir.Contents() == SetPage(old(dir.Contents()), page, kpage, writable, old(First(kernelPool)))
             && kernelPool == if old(dir.pd)[page / 1024] == 0 then old(kernelPool)[1..] else old(kernelPool)
        else dir.Contents() == old(dir.Contents()) && kernelPool == old(kernelPool)
    {
      IndicesArePage(4096 * page);
      assert |dir.pd| == 1024;
      hide SetPage, Lookup, PageDir.Valid, Aligned, Present;
      var missing := dir.pd[page / 1024] == 0;
      ok := dir.SetPageAt(4096 * page, kpage, writable, First(kernelPool));
      if ok && missing {
        kernelPool := kernelPool[1..];
      }
    }

    /** The same, seen from the address space. */
    method AddPage(page: nat, kpage: Word, writable: bool) returns (ok: bool)
      requires Holds(kpage) && kpage in frames && page < 0xc0000 && page !in space
      modifies this`kernelPool, this`space, dir
      ensures ok <==> |Tables(old(space)) + {page / 1024}| <= old(Left()).tables
      ensures space == if ok then old(space)[page := Frame(frames[kpage], writable)] else old(space)
      ensures if ok then Valid() else Holds(kpage)
      ensures |kernelPool| == |old(kernelPool)| - if ok && page / 1024 !in Tables(old(space)) then 1 else 0
    {
      ghost var s, f := space, Frame(frames[kpage], writable);
      ghost var m := Mem([kpage] + userPool);
      BeforeInstall(m, s, page);
      assert m.user[0] == kpage && m.user[1..] == userPool;
      hide Sound, SetPage, Tables, IsSpare, Lookup, PageDir.Valid, Aligned, CanSet, First;
      ok := SetPageFromPool(page, kpage, writable);
      if !ok {
        assert Mem([kpage] + userPool) == m;
        return;
      }
      AfterInstall(m, s, page, writable);
      ghost var now, r := Mem(userPool), s[page := f];
      assert Sound(now, r);
      space := r;
      assert Mem(userPool) == now;
    }

    /** install_page(): fails if the page is mapped or there is no page table to be had for it. */
    method InstallPage(upage: nat, kpage: Word, writable: bool) returns (ok: bool)
      requires Holds(kpage) && kpage in frames && upage % 4096 == 0 && upage < 0xc000_0000
      modifies this`kernelPool, this`space, dir
      ensures ok <==> upage / 4096 !in old(space) && |Tables(old(space)) + {upage / 4096 / 1024}| <= old(Left()).tables
      ensures space == if ok then old(space)[upage / 4096 := Frame(frames[kpage], writable)] else old(space)
      ensures if ok then Valid() else Holds(kpage)
      ensures Left().tables == old(Left()).tables
    {
      ghost var page, f := upage / 4096, Frame(frames[kpage], writable);
      BeforeInstall(Mem([kpage] + userPool), space, page);
      AddTable(space, page, f);
      hide Sound, Tables, Lookup, PageDir.Valid;
      var mapped := dir.GetPage(upage);
      if mapped.Some? {
        return false;
      }
      ok := AddPage(upage / 4096, kpage, writable);
    }

    /** One pass of the loop in load_segment(): whatever is not used goes back. */
    method LoadPage(file: seq<Byte>, pos: nat, n: nat, page: nat, writable: bool) returns (ok: bool)
      requires Valid() && n <= 4096 && page < 0xc0000
      modifies this, dir
      ensures Valid()
      ensures ok <==> old(Room(space, Left(), page)) && |FileRead(file, pos, n)| == n
      ensures Left() == if ok then Budget(old(Left()).pages - 1, old(Left()).tables) else old(Left())
      ensures space == if ok then old(space)[page := Frame(FileRead(file, pos, n) + Zeros(4096 - n), writable)] else old(space)
    {
      hide Sound, Tables, FileRead;
      if userPool == [] {
        return false;
      }
      ghost var m := Mem(userPool);
      var kpage := userPool[0];
      userPool := userPool[1..];
      assert [kpage] + userPool == old(userPool);
      var bytes := FileRead(file, pos, n);
      if |bytes| != n {
        userPool := [kpage] + userPool;
        return false;
      }
      frames := frames[kpage := bytes + Zeros(4096 - n)];
      FillSound(m, space, kpage, bytes + Zeros(4096 - n));
      assert Mem(old(userPool)) == m.(frames := frames);
      ok := InstallPage(4096 * page, kpage, writable);
      if !ok {
        userPool := [kpage] + userPool;
      }
    }

    /** The same, as a step through a region of n pages. */
    method LoadNext(file: seq<Byte>, pos: nat, count: nat, page: nat, writable: bool,
                    ghost s: Space, ghost m: Budget, ghost ofs: nat, ghost base: nat, ghost n: nat, ghost k: nat, ghost read: nat)
      returns (ok: bool)
      requires Valid() && k < n && page == base + k < 0xc0000
      requires count == Min(Rest(read, k), 4096) && pos == ofs + Min(read, 4096 * k)
      requires Loaded(s, space, m, Left(), file, ofs, base, k, read, writable)
      modifies this, dir
      ensures Valid()
      ensures ok ==> Loaded(s, space, m, Left(), file, ofs, base, k + 1, read, writable)
      ensures !ok ==> !Fits(s, m, |file|, ofs, base, n, read) && Left().tables == m.tables
                      && forall p :: p in s ==> p in space && space[p] == s[p]
    {
      hide Room, Fits, FileRead, Sound, Tables, Zeros, Loaded;
      ghost var now, left := space, Left();
      ok := LoadPage(file, pos, count, page, writable);
      if ok {
        LoadedStep(s, now, m, left, file, ofs, base, k, read, writable);
      } else {
        Stops(s, now, m, left, file, ofs, base, n, k, read, writable);
      }
    }

    /** load_segment(): on success the address space gains exactly the region's n pages, with the
        file's bytes and then zeros; on failure nothing that was there has changed. */
    method LoadSegment(file: seq<Byte>, ofs: nat, upage: nat, readBytes: nat, zeroBytes: nat, writable: bool, ghost n: nat)
      returns (ok: bool)
      requires Valid() && upage / 4096 + n <= 0xc0000
      requires readBytes + zeroBytes == 4096 * n && upage % 4096 == 0 && ofs % 4096 == 0
      modifies this, dir
      ensures Valid() && Left().tables == old(Left()).tables
      ensures ok <==> Fits(old(space), old(Left()), |file|, ofs, upage / 4096, n, readBytes)
      ensures ok ==> Added(old(space), space, file, ofs, upage / 4096, n, readBytes, writable) && Left().pages == old(Left()).pages - n
      ensures forall p :: p in old(space) ==> p in space && space[p] == old(space)[p]
    {
      var read, zero, page, pos := readBytes, zeroBytes, upage / 4096, ofs;
      ghost var base := upage / 4096;
      ghost var s, m := space, Left();
      ghost var k := 0;
      NothingLoaded(s, m, file, ofs, base, readBytes, writable);
      assert Rest(readBytes, 0) == readBytes && Min(readBytes, 0) == 0;
      hide Room, Added, Fits, FileRead, Sound, Tables, PageBytes, Zeros, Loaded, Rest, Min;
      while read > 0 || zero > 0
        invariant Valid() && k <= n && read + zero == 4096 * (n - k) && page == base + k
        invariant read == Rest(readBytes, k) && pos == ofs + Min(readBytes, 4096 * k)
        invariant Loaded(s, space, m, Left(), file, ofs, base, k, readBytes, writable)
        decreases read + zero
      {
        var pageRead := Min(read, 4096);
        var pageZero := 4096 - pageRead;
        PageOfRegion(readBytes, n, k, read, zero);
        ok := LoadNext(file, pos, pageRead, page, writable, s, m, ofs, base, n, k, readBytes);
        if !ok {
          return;
        }
        read, zero := read - pageRead, zero - pageZero;
        page := page + 1;
        pos := pos + pageRead;
        k := k + 1;
      }
      AllLoaded(s, space, m, Left(), file, ofs, base, n, readBytes, writable);
      return true;
    }

    /** load(), from the program headers on: it succeeds exactly if the headers can be loaded, and then
        the address space is what they say, plus a stack. Successful or not, every page is still in one
        place, so that pagedir_destroy() frees each page once. */
    method Load(file: seq<Byte>, hs: seq<Option<Phdr>>) returns (ok: bool)
      requires Valid() && space == map[]
      modifies this, dir
      ensures Valid()
      ensures ok <==> Loads(hs, |file|, old(Left()))
      ensures ok ==> Realised(space, file, hs)
    {
      ghost var m := Left();
      LoadableMeans(hs, |file|, m);
      StartsEmpty(file, hs, m);
      hide Done, UpTo, Loadable, Loads, HeaderOk, Fits, Added, TotalPages, Realised, Sound, Tables, Room;
      for i := 0 to |hs|
        invariant Valid() && UpTo(hs, |file|, i, m) && Done(space, file, hs, i)
        invariant TotalPages(hs, i) <= m.pages && Left() == After(m, hs, i)
      {
        ok := LoadHeader(file, hs, i, m);
        if !ok {
          return;
        }
      }
      ghost var s := space;
      StackFits(s, file, hs, m);
      ok := SetupStack();
      if ok {
        Realises(s, space, file, hs, m);
      }
    }

    /** One program header: the switch in load(). */
    method LoadHeader(file: seq<Byte>, hs: seq<Option<Phdr>>, i: nat, ghost m: Budget) returns (ok: bool)
      requires Valid() && i < |hs| && UpTo(hs, |file|, i, m) && Done(space, file, hs, i)
      requires TotalPages(hs, i) <= m.pages && Left() == After(m, hs, i)
      modifies this, dir
      ensures Valid()
      ensures ok ==> UpTo(hs, |file|, i + 1, m) && Done(space, file, hs, i + 1)
      ensures ok ==> TotalPages(hs, i + 1) <= m.pages && Left() == After(m, hs, i + 1)
      ensures !ok ==> !Loadable(hs, |file|, m)
    {
      hide Done, UpTo, Loadable, Fits, Added, TotalPages, PlanOf, ValidSegment, Sound, Tables;
      if hs[i] == None {
        BadHeader(hs, |file|, i, m);
        return false;
      }
      var ph := hs[i].value;
      if ph.kind == PT_DYNAMIC || ph.kind == PT_INTERP || ph.kind == PT_SHLIB {
        BadHeader(hs, |file|, i, m);
        return false;
      }
      if ph.kind != PT_LOAD {
        Ignored(space, file, hs, i, m);
        return true;
      }
      if !ValidSegment(ph, |file|) {
        BadHeader(hs, |file|, i, m);
        return false;
      }
      PlanExact(ph, |file|);
      var plan := PlanOf(ph);
      ghost var s := space;
      ok := LoadSegment(file, plan.filePage, plan.memPage, plan.read, plan.zero, ph.flags / 2 % 2 != 0, PageCount(ph));
      if ok {
        SegmentDone(s, space, file, hs, i, m);
      } else {
        SegmentRefused(s, file, hs, i, m);
      }
    }

    /** setup_stack(). */
    method SetupStack() returns (ok: bool)
      requires Valid()
      modifies this, dir
      ensures Valid()
      ensures ok <==> old(Room(space, Left(), STACK_PAGE))
      ensures space == if ok then old(space)[STACK_PAGE := Frame(Zeros(4096), true)] else old(space)
    {
      if userPool == [] {
        return false;
      }
      hide Sound, Tables;
      ghost var m := Mem(userPool);
      var kpage := userPool[0];
      userPool := userPool[1..];
      assert [kpage] + userPool == old(userPool);
      frames := frames[kpage := Zeros(4096)];
      FillSound(m, space, kpage, Zeros(4096));
      assert Mem(old(userPool)) == m.(frames := frames);
      ok := InstallPage(4096 * STACK_PAGE, kpage, true);
      if !ok {
        userPool := [kpage] + userPool;
      }
    }
  }

  function Zeros(n: nat): seq<Byte> {
    seq<Byte>(n, _ => 0)
  }

  /** What is left to read after k pages. */
  function Rest(read: nat, k: nat): nat {
    if read > 4096 * k then read - 4096 * k else 0
  }

  /** How the loop in load_segment() goes from page to page. */
  lemma PageOfRegion(readBytes: nat, n: nat, k: nat, read: nat, zero: nat)
    requires k <= n && read + zero == 4096 * (n - k) > 0 && read == Rest(readBytes, k)
    ensures k < n && Min(read, 4096) <= read && 0 <= 4096 - Min(read, 4096) <= zero
    ensures Rest(readBytes, k + 1) == read - Min(read, 4096)
    ensures Min(readBytes, 4096 * (k + 1)) == Min(readBytes, 4096 * k) + Min(read, 4096)
  {
  }

  /** The file has the bytes of the first k pages. */
  predicate FileReaches(len: nat, ofs: nat, read: nat, k: nat) {
    k > 0 && read > 0 ==> ofs + Min(read, 4096 * k) <= len
  }

  lemma Reaches(file: seq<Byte>, ofs: nat, read: nat, k: nat)
    requires FileReaches(|file|, ofs, read, k)
    requires var n := Min(Rest(read, k), 4096); |FileRead(file, ofs + Min(read, 4096 * k), n)| == n
    ensures FileReaches(|file|, ofs, read, k + 1)
  {
  }

  /** The loop in load_segment() has come to page k of the region. */
  ghost predicate Loaded(s: Space, r: Space, m: Budget, left: Budget, file: seq<Byte>, ofs: nat, base: nat, k: nat,
                         read: nat, writable: bool)
  {
    && k <= m.pages && left == Budget(m.pages - k, m.tables)
    && Added(s, r, file, ofs, base, k, read, writable) && FileReaches(|file|, ofs, read, k)
  }

  lemma NothingLoaded(s: Space, m: Budget, file: seq<Byte>, ofs: nat, base: nat, read: nat, writable: bool)
    ensures Loaded(s, s, m, m, file, ofs, base, 0, read, writable)
  {
  }

  lemma LoadedStep(s: Space, r: Space, m: Budget, left: Budget, file: seq<Byte>, ofs: nat, base: nat, k: nat,
                   read: nat, writable: bool)
    requires Loaded(s, r, m, left, file, ofs, base, k, read, writable) && Room(r, left, base + k)
    requires var c := Min(Rest(read, k), 4096); |FileRead(file, ofs + Min(read, 4096 * k), c)| == c
    ensures var c := Min(Rest(read, k), 4096);
      var f := Frame(FileRead(file, ofs + Min(read, 4096 * k), c) + Zeros(4096 - c), writable);
      Loaded(s, r[base + k := f], m, Budget(left.pages - 1, left.tables), file, ofs, base, k + 1, read, writable)
  {
    FilledPage(file, ofs, read, k);
    AddedStep(s, r, file, ofs, base, k, read, writable);
    Reaches(file, ofs, read, k);
    hide Added, FileRead, PageBytes, Zeros, FileReaches;
  }

  /** The loop stops early only if the segment does not fit. */
  lemma Stops(s: Space, r: Space, m: Budget, left: Budget, file: seq<Byte>, ofs: nat, base: nat, n: nat, k: nat,
              read: nat, writable: bool)
    requires Loaded(s, r, m, left, file, ofs, base, k, read, writable) && k < n
    requires var c := Min(Rest(read, k), 4096);
      !Room(r, left, base + k) || |FileRead(file, ofs + Min(read, 4096 * k), c)| != c
    ensures !Fits(s, m, |file|, ofs, base, n, read) && left.tables == m.tables
    ensures forall p :: p in s ==> p in r && r[p] == s[p]
  {
    hide PageBytes, Tables, RegionTables;
    var c := Min(Rest(read, k), 4096);
    if |FileRead(file, ofs + Min(read, 4096 * k), c)| != c {
      ShortFile(file, ofs, read, k);
    }
    AddedTables(s, r, file, ofs, base, k, read, writable);
    MoreTables(base, k, n);
    SubsetSize(Tables(r) + {(base + k) / 1024}, Tables(s) + RegionTables(base, n));
  }

  /** The tables in use are those that were and those of the region. */
  lemma AddedTables(s: Space, r: Space, file: seq<Byte>, ofs: nat, base: nat, k: nat, read: nat, writable: bool)
    requires Added(s, r, file, ofs, base, k, read, writable)
    ensures Tables(r) == Tables(s) + RegionTables(base, k)
  {
    hide PageBytes;
    forall i | i in Tables(s) ensures i in Tables(r) {
      var p :| p in s && p / 1024 == i;
      assert p in r;
    }
    forall i | i in RegionTables(base, k) ensures i in Tables(r) {
      var p :| base <= p < base + k && p / 1024 == i;
      assert p in r;
    }
    forall i | i in Tables(r) ensures i in Tables(s) + RegionTables(base, k) {
      var p :| p in r && p / 1024 == i;
      assert p in s || base <= p < base + k;
    }
  }

  lemma MoreTables(base: nat, k: nat, n: nat)
    requires k < n
    ensures RegionTables(base, k) + {(base + k) / 1024} <= RegionTables(base, n)
  {
    forall i | i in RegionTables(base, k) ensures i in RegionTables(base, n) {
      var p :| base <= p < base + k && p / 1024 == i;
      assert base <= p < base + n;
    }
    assert base <= base + k < base + n;
  }

  lemma ShortFile(file: seq<Byte>, ofs: nat, read: nat, k: nat)
    requires var c := Min(Rest(read, k), 4096); |FileRead(file, ofs + Min(read, 4096 * k), c)| != c
    ensures read > 0 && ofs + read > |file|
  {
  }

  lemma AllLoaded(s: Space, r: Space, m: Budget, left: Budget, file: seq<Byte>, ofs: nat, base: nat, n: nat, read: nat,
                  writable: bool)
    requires Loaded(s, r, m, left, file, ofs, base, n, read, writable) && read <= 4096 * n && |Tables(r)| <= left.tables
    ensures Fits(s, m, |file|, ofs, base, n, read) && left.tables == m.tables && left.pages == m.pages - n
    ensures Added(s, r, file, ofs, base, n, read, writable)
    ensures forall p :: p in s ==> p in r && r[p] == s[p]
  {
    AddedTables(s, r, file, ofs, base, n, read, writable);
    hide PageBytes, Tables, RegionTables;
  }

  // ---------------------------------------------------------------- the loop over the headers

  lemma StartsEmpty(file: seq<Byte>, hs: seq<Option<Phdr>>, m: Budget)
    ensures UpTo(hs, |file|, 0, m) && Done(map[], file, hs, 0) && TotalPages(hs, 0) == 0
  {
  }

  lemma BadHeader(hs: seq<Option<Phdr>>, len: nat, i: nat, m: Budget)
    requires i < |hs| && !HeaderOk(hs[i], len)
    ensures !Loadable(hs, len, m)
  {
    hide HeaderOk;
  }

  lemma FromSegmentMore(hs: seq<Option<Phdr>>, n: nat, p: nat)
    requires FromSegment(hs, n, p)
    ensures FromSegment(hs, n + 1, p)
  {
    var i: nat :| i < n && IsLoad(hs, i) && InSeg(hs[i].value, p);
    assert i < n + 1 && IsLoad(hs, i) && InSeg(hs[i].value, p);
  }

  lemma Ignored(s: Space, file: seq<Byte>, hs: seq<Option<Phdr>>, n: nat, m: Budget)
    requires n < |hs| && UpTo(hs, |file|, n, m) && Done(s, file, hs, n) && HeaderOk(hs[n], |file|) && !IsLoad(hs, n)
    ensures UpTo(hs, |file|, n + 1, m) && Done(s, file, hs, n + 1) && TotalPages(hs, n + 1) == TotalPages(hs, n)
  {
    hide HeaderOk, InSeg, SegPage;
    forall p | p in s ensures FromSegment(hs, n + 1, p) {
      FromSegmentMore(hs, n, p);
    }
  }

  lemma SegmentDone(s: Space, r: Space, file: seq<Byte>, hs: seq<Option<Phdr>>, n: nat, m: Budget)
    requires n < |hs| && UpTo(hs, |file|, n, m) && Done(s, file, hs, n) && IsLoad(hs, n)
    requires ValidSegment(hs[n].value, |file|)
    requires var ph := hs[n].value; var plan := PlanOf(ph);
      && Fits(s, After(m, hs, n), |file|, plan.filePage, FirstPage(ph), PageCount(ph), plan.read)
      && Added(s, r, file, plan.filePage, FirstPage(ph), PageCount(ph), plan.read, ph.flags / 2 % 2 != 0)
    ensures UpTo(hs, |file|, n + 1, m) && Done(r, file, hs, n + 1)
    ensures TotalPages(hs, n + 1) == TotalPages(hs, n) + PageCount(hs[n].value)
  {
    SegmentOk(s, After(m, hs, n), |file|, hs[n].value);
    hide HeaderOk, ValidSegment, PlanOf, FirstPage, PageCount, Done, Added, Disjoint, InSeg;
    forall p: nat | InSeg(hs[n].value, p) ensures p !in s {
      NotTaken(s, After(m, hs, n), |file|, hs[n].value, p);
    }
    StillDisjoint(s, file, hs, n);
    StillDone(s, r, file, hs, n);
  }

  lemma SegmentOk(s: Space, m: Budget, len: nat, ph: Phdr)
    requires ph.kind == PT_LOAD && ValidSegment(ph, len)
    requires Fits(s, m, len, PlanOf(ph).filePage, FirstPage(ph), PageCount(ph), PlanOf(ph).read)
    ensures HeaderOk(Some(ph), len)
  {
    PlanExact(ph, len);
    hide PlanOf, FirstPage, PageCount;
  }

  lemma NotTaken(s: Space, m: Budget, len: nat, ph: Phdr, p: nat)
    requires Fits(s, m, len, PlanOf(ph).filePage, FirstPage(ph), PageCount(ph), PlanOf(ph).read) && InSeg(ph, p)
    ensures p !in s
  {
    hide PlanOf, FirstPage, PageCount;
  }

  lemma StillDisjoint(s: Space, file: seq<Byte>, hs: seq<Option<Phdr>>, n: nat)
    requires n < |hs| && IsLoad(hs, n) && Done(s, file, hs, n) && Disjoint(hs, n)
    requires forall p: nat :: InSeg(hs[n].value, p) ==> p !in s
    ensures Disjoint(hs, n + 1)
  {
    hide InSeg, SegPage;
    forall i: nat, j: nat, p: nat | i < j < n + 1 && IsLoad(hs, i) && IsLoad(hs, j) && InSeg(hs[i].value, p)
      ensures !InSeg(hs[j].value, p)
    {
      if j == n {
        assert p in s;
      }
    }
  }

  lemma StillDone(s: Space, r: Space, file: seq<Byte>, hs: seq<Option<Phdr>>, n: nat)
    requires n < |hs| && IsLoad(hs, n) && Done(s, file, hs, n)
    requires var ph := hs[n].value; var plan := PlanOf(ph);
      Added(s, r, file, plan.filePage, FirstPage(ph), PageCount(ph), plan.read, ph.flags / 2 % 2 != 0)
    ensures Done(r, file, hs, n + 1)
  {
    hide PlanOf, FirstPage, PageCount, PageBytes;
    forall p | p in r ensures FromSegment(hs, n + 1, p) {
      if p in s {
        FromSegmentMore(hs, n, p);
      } else {
        assert n < n + 1 && IsLoad(hs, n) && InSeg(hs[n].value, p);
      }
    }
  }

  lemma {:induction false} PagesGrow(hs: seq<Option<Phdr>>, i: nat, n: nat)
    requires i <= n <= |hs|
    ensures TotalPages(hs, i) <= TotalPages(hs, n)
    decreases n
  {
    if i < n {
      PagesGrow(hs, i, n - 1);
    }
  }

  lemma SegmentRefused(s: Space, file: seq<Byte>, hs: seq<Option<Phdr>>, n: nat, m: Budget)
    requires n < |hs| && TotalPages(hs, n) <= m.pages && Done(s, file, hs, n) && IsLoad(hs, n)
    requires ValidSegment(hs[n].value, |file|)
    requires var ph := hs[n].value;
      !Fits(s, After(m, hs, n), |file|, PlanOf(ph).filePage, FirstPage(ph), PageCount(ph), PlanOf(ph).read)
    ensures !Loadable(hs, |file|, m)
  {
    var ph := hs[n].value;
    hide ValidSegment, PlanOf, FirstPage, PageCount, Disjoint, Loadable, Fits, TotalPages, FromSegment, Done, HeaderOk, InSeg;
    WhyNot(s, After(m, hs, n), |file|, ph);
    if PageCount(ph) > m.pages - TotalPages(hs, n) {
      OutOfPages(hs, |file|, n, m);
    } else if |Tables(s) + RegionTables(FirstPage(ph), PageCount(ph))| > m.tables {
      TablesDone(s, file, hs, n);
      OutOfTables(hs, |file|, n, m);
    } else if ph.filesz > 0 && ph.offset + ph.filesz > |file| {
      TooShort(hs, |file|, n, m);
    } else {
      var p: nat :| InSeg(ph, p) && p in s;
      TakenBy(s, file, hs, n, p);
      Overlap(hs, |file|, n, m, p);
    }
  }

  lemma WhyNot(s: Space, m: Budget, len: nat, ph: Phdr)
    requires ValidSegment(ph, len)
    requires !Fits(s, m, len, PlanOf(ph).filePage, FirstPage(ph), PageCount(ph), PlanOf(ph).read)
    ensures
      || PageCount(ph) > m.pages || |Tables(s) + RegionTables(FirstPage(ph), PageCount(ph))| > m.tables
      || (ph.filesz > 0 && ph.offset + ph.filesz > len) || exists p: nat :: InSeg(ph, p) && p in s
  {
    PlanExact(ph, len);
    hide ValidSegment, PlanOf, FirstPage, PageCount;
    if PageCount(ph) <= m.pages && |Tables(s) + RegionTables(FirstPage(ph), PageCount(ph))| <= m.tables && (ph.filesz > 0 ==> ph.offset + ph.filesz <= len) {
      var p :| FirstPage(ph) <= p < FirstPage(ph) + PageCount(ph) && p in s;
      assert InSeg(ph, p) && p in s;
    }
  }

  lemma TooShort(hs: seq<Option<Phdr>>, len: nat, n: nat, m: Budget)
    requires IsLoad(hs, n) && hs[n].value.filesz > 0 && hs[n].value.offset + hs[n].value.filesz > len
    ensures !Loadable(hs, len, m)
  {
    BadHeader(hs, len, n, m);
  }

  lemma TakenBy(s: Space, file: seq<Byte>, hs: seq<Option<Phdr>>, n: nat, p: nat)
    requires Done(s, file, hs, n) && p in s
    ensures FromSegment(hs, n, p)
  {
  }

  lemma OutOfPages(hs: seq<Option<Phdr>>, len: nat, n: nat, m: Budget)
    requires IsLoad(hs, n) && TotalPages(hs, n) + PageCount(hs[n].value) > m.pages
    ensures !Loadable(hs, len, m)
  {
    PagesGrow(hs, n + 1, |hs|);
    hide PageCount, HeaderOk, Disjoint, InSeg;
  }

  lemma Overlap(hs: seq<Option<Phdr>>, len: nat, n: nat, m: Budget, p: nat)
    requires IsLoad(hs, n) && FromSegment(hs, n, p) && InSeg(hs[n].value, p)
    ensures !Loadable(hs, len, m)
  {
    var i: nat :| i < n && IsLoad(hs, i) && InSeg(hs[i].value, p);
    hide InSeg, HeaderOk;
  }

  lemma {:induction false} TablesGrow(hs: seq<Option<Phdr>>, i: nat, n: nat)
    requires i <= n <= |hs|
    ensures SegTables(hs, i) <= SegTables(hs, n)
    decreases n
  {
    if i < n {
      TablesGrow(hs, i, n - 1);
    }
  }

  lemma OutOfTables(hs: seq<Option<Phdr>>, len: nat, n: nat, m: Budget)
    requires IsLoad(hs, n) && |SegTables(hs, n) + RegionTables(FirstPage(hs[n].value), PageCount(hs[n].value))| > m.tables
    ensures !Loadable(hs, len, m)
  {
    TablesGrow(hs, n + 1, |hs|);
    SubsetSize(SegTables(hs, n + 1), SegTables(hs, |hs|) + {STACK_PAGE / 1024});
    hide PageCount, HeaderOk, Disjoint, InSeg, RegionTables;
  }

  lemma {:induction false} SegTablesAre(hs: seq<Option<Phdr>>, n: nat, i: nat)
    requires n <= |hs|
    ensures i in SegTables(hs, n) <==> exists p: nat :: FromSegment(hs, n, p) && p / 1024 == i
  {
    hide PageCount, FirstPage;
    if n > 0 {
      SegTablesAre(hs, n - 1, i);
      if p: nat :| FromSegment(hs, n - 1, p) && p / 1024 == i {
        FromSegmentMore(hs, n - 1, p);
      }
      if IsLoad(hs, n - 1) && i in RegionTables(FirstPage(hs[n - 1].value), PageCount(hs[n - 1].value)) {
        var p: nat :| InSeg(hs[n - 1].value, p) && p / 1024 == i;
        assert FromSegment(hs, n, p);
      }
    }
  }

  /** The tables in use are those that the segments need. */
  lemma TablesDone(s: Space, file: seq<Byte>, hs: seq<Option<Phdr>>, n: nat)
    requires n <= |hs| && Done(s, file, hs, n)
    ensures Tables(s) == SegTables(hs, n)
  {
    hide SegPage;
    forall i: nat ensures i in Tables(s) <==> i in SegTables(hs, n) {
      SegTablesAre(hs, n, i);
      if i in Tables(s) {
        var p :| p in s && p / 1024 == i;
        assert FromSegment(hs, n, p);
      }
      if i in SegTables(hs, n) {
        var p: nat :| FromSegment(hs, n, p) && p / 1024 == i;
        assert p in s;
      }
    }
  }

  lemma StackFits(r: Space, file: seq<Byte>, hs: seq<Option<Phdr>>, m: Budget)
    requires UpTo(hs, |file|, |hs|, m) && Done(r, file, hs, |hs|)
    ensures Loadable(hs, |file|, m) <==> Room(r, After(m, hs, |hs|), STACK_PAGE)
  {
    TablesDone(r, file, hs, |hs|);
    hide InSeg, HeaderOk, SegPage, TotalPages, Tables, SegTables;
  }

  // ---------------------------------------------------------------- from pages to bytes

  /** Byte j of a segment is in page FirstPage + k at offset i, and is byte 4096 * k + i of what
      load_segment() was told to load. */
  lemma SegmentOffset(ph: Phdr, len: nat, j: nat)
    requires ValidSegment(ph, len) && j < ph.memsz
    ensures var va := ph.vaddr + j;
      && InSeg(ph, va / 4096)
      && 4096 * (va / 4096 - FirstPage(ph)) + va % 4096 == ph.vaddr % 4096 + j
  {
    var va := ph.vaddr + j;
    assert va / 4096 >= ph.vaddr / 4096;
  }

  lemma SegmentLoaded(s: Space, file: seq<Byte>, ph: Phdr, j: nat)
    requires HeaderOk(Some(ph), |file|) && ph.kind == PT_LOAD && j < ph.memsz
    requires forall p: nat :: InSeg(ph, p) ==> p in s && s[p] == SegPage(file, ph, p)
    ensures SegmentByte(s, file, ph, j)
  {
    SegmentOffset(ph, |file|, j);
    PlanExact(ph, |file|);
    hide ValidSegment, PlanOf, FirstPage, PageCount;
    var va := ph.vaddr + j;
    var p := va / 4096;
    assert s[p] == SegPage(file, ph, p);
    var plan := PlanOf(ph);
    assert s[p].bytes[va % 4096] == SegByte(file, plan.filePage, plan.read, ph.vaddr % 4096 + j);
  }

  lemma InUserSpace(hs: seq<Option<Phdr>>, len: nat, p: nat)
    requires FromSegment(hs, |hs|, p) && forall i: nat :: i < |hs| ==> HeaderOk(hs[i], len)
    ensures 1 <= p < 0xc0000
  {
    var i: nat :| i < |hs| && IsLoad(hs, i) && InSeg(hs[i].value, p);
    assert HeaderOk(hs[i], len);
    PlanExact(hs[i].value, len);
  }

  lemma Realises(s: Space, r: Space, file: seq<Byte>, hs: seq<Option<Phdr>>, m: Budget)
    requires Loadable(hs, |file|, m) && Done(s, file, hs, |hs|) && r == s[STACK_PAGE := Frame(Zeros(4096), true)]
    ensures Realised(r, file, hs)
  {
    hide HeaderOk, SegPage, Disjoint, TotalPages, InSeg, SegmentByte;
    forall i: nat, j: nat | IsLoad(hs, i) && j < hs[i].value.memsz ensures SegmentByte(r, file, hs[i].value, j) {
      assert HeaderOk(hs[i], |file|);
      forall p: nat | InSeg(hs[i].value, p) ensures p in r && r[p] == SegPage(file, hs[i].value, p) {
        assert p != STACK_PAGE;
      }
      SegmentLoaded(r, file, hs[i].value, j);
    }
    forall p | p in r && p != STACK_PAGE ensures 1 <= p < 0xc0000 && FromSegment(hs, |hs|, p) {
      InUserSpace(hs, |file|, p);
    }
  }
}
