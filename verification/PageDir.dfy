/**
 pagedir.c and pte.h: a two-level page table of the IA-32, with its entries as 32-bit words. The
 user part of a directory stands for a partial map from user pages to frames.
 */
module PageDir {
  import opened Common

  type Word = U32

  // ---------------------------------------------------------------- pte.h

  // The entries are numbers here, so that setting flag bits in an aligned address is an addition and
  // masking leaves a multiple or a remainder. Module PteBits shows that these functions are the masks
  // and shifts of pte.h on the words that the numbers stand for.

  predicate Aligned(a: Word) {
    a % 4096 == 0
  }

  /** pde_create(), for the page table at physical address pt. */
  function PdeCreate(pt: Word): Word
    requires Aligned(pt)
  {
    pt + 7
  }

  /** pte_create_user(). */
  function PteCreate(page: Word, writable: bool): Word
    requires Aligned(page)
  {
    page + (if writable then 7 else 5)
  }

  predicate Present(e: Word) {
    e % 2 != 0
  }

  predicate Writable(e: Word) {
    e / 2 % 2 != 0
  }

  /** pde_get_pt() and pte_get_page(). */
  function Addr(e: Word): (a: Word)
    ensures Aligned(a)
  {
    e - e % 4096
  }

  function Absent(e: Word): Word {
    e - e % 2
  }

  /** The entries give back what went in. */
  lemma EntryRoundTrip(a: Word, writable: bool)
    requires Aligned(a)
    ensures var e := PteCreate(a, writable); Present(e) && Addr(e) == a && (Writable(e) <==> writable)
    ensures var e := PdeCreate(a); Present(e) && Addr(e) == a && e != 0
  {
    assert (a + 7) % 4096 == 7 && (a + 5) % 4096 == 5;
  }

  lemma AbsentKeeps(e: Word)
    ensures !Present(Absent(e)) && Addr(Absent(e)) == Addr(e) && (Writable(Absent(e)) <==> Writable(e))
  {
    if e % 2 == 1 {
      var k := e / 2;
      assert e == 2 * k + 1 && (2 * k) / 2 == k && (2 * k) % 2 == 0;
      OddPage(e);
    }
  }

  lemma OddPage(e: Word)
    requires e % 2 == 1
    ensures (e - 1) - (e - 1) % 4096 == e - e % 4096
  {
    var q, r := e / 4096, e % 4096;
    assert e == 4096 * q + r;
    assert r != 0;
  }

  lemma ZeroIsAbsent()
    ensures !Present(0)
  {
  }

  // ---------------------------------------------------------------- virtual addresses

  /** pd_no() and pt_no(). */
  function PdNo(va: nat): nat {
    va / 0x40_0000
  }

  function PtNo(va: nat): nat {
    va / 4096 % 1024
  }

  /** The two indices are the page number. */
  lemma IndicesArePage(va: nat)
    ensures PdNo(va) == va / 4096 / 1024 && PtNo(va) == va / 4096 % 1024
    ensures va < 0xc000_0000 ==> PdNo(va) < 768
  {
  }

  // ---------------------------------------------------------------- what a directory stands for

  /** A directory and the page tables by physical address. */
  datatype Dir = Dir(pd: seq<Word>, tables: map<Word, seq<Word>>)

  datatype Mapping = Mapping(frame: Word, writable: bool)

  /** User entries are zero or point to a page table of their own. */
  ghost predicate Valid(s: Dir) {
    && |s.pd| == 1024
    && (forall a :: a in s.tables ==> |s.tables[a]| == 1024)
    && (forall i: nat :: i < 768 && s.pd[i] != 0 ==> Present(s.pd[i]) && Addr(s.pd[i]) in s.tables)
    && (forall i: nat, j: nat :: i < 768 && j < 768 && i != j && s.pd[i] != 0 && s.pd[j] != 0 ==> Addr(s.pd[i]) != Addr(s.pd[j]))
  }

  /** The entry for a user page, if it has a page table. */
  function Entry(s: Dir, page: nat): (e: Option<Word>)
    requires Valid(s) && page < 0xc0000
  {
    var pde := s.pd[page / 1024];
    if pde == 0 then None else Some(s.tables[Addr(pde)][page % 1024])
  }

  /** Where a user page is mapped. */
  function Lookup(s: Dir, page: nat): Option<Mapping>
    requires Valid(s) && page < 0xc0000
  {
    match Entry(s, page)
    case None => None
    case Some(e) => if Present(e) then Some(Mapping(Addr(e), Writable(e))) else None
  }

  /** lookup_page() with CREATE: makes the page table if it is missing. */
  function WithTable(s: Dir, page: nat, pt: Word): Dir
    requires Valid(s) && page < 0xc0000 && Aligned(pt)
  {
    if s.pd[page / 1024] != 0 then s
    else Dir(s.pd[page / 1024 := PdeCreate(pt)], s.tables[pt := seq(1024, _ => 0)])
  }

  /** A write to the entry of a page that has a page table. */
  function SetEntry(s: Dir, page: nat, e: Word): Dir
    requires Valid(s) && page < 0xc0000 && s.pd[page / 1024] != 0
  {
    var a := Addr(s.pd[page / 1024]);
    var t: seq<Word> := s.tables[a][page % 1024 := e];
    s.(tables := s.tables[a := t])
  }

  /** Two user pages with the same indices are one. */
  lemma SameIndices(p: nat, q: nat)
    requires p / 1024 == q / 1024 && p % 1024 == q % 1024
    ensures p == q
  {
  }

  lemma SetEntryIs(s: Dir, page: nat, e: Word, q: nat)
    requires Valid(s) && page < 0xc0000 && q < 0xc0000 && s.pd[page / 1024] != 0
    ensures Valid(SetEntry(s, page, e))
    ensures Entry(SetEntry(s, page, e), q) == if q == page then Some(e) else Entry(s, q)
  {
    hide Addr, Present;
    var i, j := page / 1024, q / 1024;
    if i == j {
      if q % 1024 == page % 1024 {
        SameIndices(q, page);
      }
    } else if s.pd[j] != 0 {
      assert Addr(s.pd[i]) != Addr(s.pd[j]);
    }
  }

  lemma WithTableValid(s: Dir, page: nat, pt: Word)
    requires Valid(s) && page < 0xc0000 && Aligned(pt) && pt !in s.tables
    ensures Valid(WithTable(s, page, pt)) && WithTable(s, page, pt).pd[page / 1024] != 0
  {
    EntryRoundTrip(pt, true);
    hide PdeCreate, Addr, Present, Writable, Aligned;
    var g := WithTable(s, page, pt);
    if s.pd[page / 1024] == 0 {
      forall i: nat | i < 768 && g.pd[i] != 0
        ensures Present(g.pd[i]) && Addr(g.pd[i]) in g.tables && (Addr(g.pd[i]) == pt <==> i == page / 1024)
      {
        if i != page / 1024 {
          assert g.pd[i] == s.pd[i];
        }
      }
    }
  }

  lemma WithTableIs(s: Dir, page: nat, pt: Word, q: nat)
    requires Valid(s) && page < 0xc0000 && q < 0xc0000 && Aligned(pt) && pt !in s.tables
    requires Valid(WithTable(s, page, pt))
    ensures Lookup(WithTable(s, page, pt), q) == Lookup(s, q)
  {
    EntryRoundTrip(pt, true);
    ZeroIsAbsent();
    hide PdeCreate, Addr, Present, Writable, Aligned;
    var i, j := page / 1024, q / 1024;
    if j != i && s.pd[j] != 0 {
      assert Addr(s.pd[j]) in s.tables;
    }
  }

  // ---------------------------------------------------------------- pagedir.c

  /** There is a page table for the page, or a page to make one of. */
  ghost predicate CanSet(s: Dir, page: nat, spare: Option<Word>)
    requires Valid(s) && page < 0xc0000
  {
    s.pd[page / 1024] != 0 || spare.Some?
  }

  /** What palloc_get_page() may return for a page table: a page that is none yet, or nothing. */
  predicate IsSpare(s: Dir, spare: Option<Word>) {
    spare.Some? ==> Aligned(spare.value) && spare.value !in s.tables
  }

  /** pagedir_set_page(). */
  function SetPage(s: Dir, page: nat, frame: Word, writable: bool, spare: Option<Word>): Dir
    requires Valid(s) && page < 0xc0000 && Aligned(frame) && IsSpare(s, spare) && CanSet(s, page, spare)
  {
    if spare.Some? then
      WithTableValid(s, page, spare.value);
      SetEntry(WithTable(s, page, spare.value), page, PteCreate(frame, writable))
    else SetEntry(s, page, PteCreate(frame, writable))
  }

  /** It adds the one mapping and changes no other. */
  lemma SetPageMaps(s: Dir, page: nat, frame: Word, writable: bool, spare: Option<Word>, q: nat)
    requires Valid(s) && page < 0xc0000 && q < 0xc0000 && Aligned(frame) && IsSpare(s, spare) && CanSet(s, page, spare)
    ensures var g := SetPage(s, page, frame, writable, spare);
      Valid(g) && Lookup(g, q) == if q == page then Some(Mapping(frame, writable)) else Lookup(s, q)
  {
    var g := s;
    if spare.Some? {
      WithTableValid(s, page, spare.value);
      g := WithTable(s, page, spare.value);
      WithTableIs(s, page, spare.value, q);
    }
    SetEntryIs(g, page, PteCreate(frame, writable), q);
    EntryRoundTrip(frame, writable);
    hide Valid, PteCreate, Addr, Present, Writable, Aligned, WithTable;
  }

  /** pagedir_clear_page(). */
  function ClearPage(s: Dir, page: nat): Dir
    requires Valid(s) && page < 0xc0000
  {
    match Entry(s, page)
    case None => s
    case Some(e) => if Present(e) then SetEntry(s, page, Absent(e)) else s
  }

  /** It removes the one mapping and changes no other. */
  lemma ClearPageUnmaps(s: Dir, page: nat, q: nat)
    requires Valid(s) && page < 0xc0000 && q < 0xc0000
    ensures var g := ClearPage(s, page);
      Valid(g) && Lookup(g, q) == if q == page then None else Lookup(s, q)
  {
    var e := Entry(s, page);
    if e.Some? && Present(e.value) {
      AbsentKeeps(e.value);
      SetEntryIs(s, page, Absent(e.value), q);
    }
    hide Valid, Absent, Addr, Present, Writable;
  }

  // ---------------------------------------------------------------- destruction

  /** The frames that the first n entries of a page table map. */
  function TableFrames(t: seq<Word>, n: nat): seq<Word>
    requires n <= |t|
  {
    if n == 0 then []
    else TableFrames(t, n - 1) + (if Present(t[n - 1]) then [Addr(t[n - 1])] else [])
  }

  /** What pagedir_destroy() frees for the first n entries of the directory: each page table after the
      frames that it maps. */
  function Freed(s: Dir, n: nat): seq<Word>
    requires Valid(s) && n <= 768
  {
    if n == 0 then []
    else if s.pd[n - 1] == 0 then Freed(s, n - 1)
    else
      var a := Addr(s.pd[n - 1]);
      Freed(s, n - 1) + TableFrames(s.tables[a], 1024) + [a]
  }

  ghost predicate Maps(s: Dir, page: nat, a: Word)
    requires Valid(s)
  {
    page < 0xc0000 && Lookup(s, page).Some? && Lookup(s, page).value.frame == a
  }

  ghost predicate HasTable(s: Dir, i: nat, a: Word)
    requires Valid(s)
  {
    i < 768 && s.pd[i] != 0 && Addr(s.pd[i]) == a
  }

  lemma {:induction false} TableFramesAre(t: seq<Word>, n: nat, a: Word)
    requires n <= |t|
    ensures a in TableFrames(t, n) <==> exists k: nat :: k < n && Present(t[k]) && Addr(t[k]) == a
  {
    if n > 0 {
      TableFramesAre(t, n - 1, a);
      hide Present, Addr;
    }
  }

  lemma {:induction false} TableFramesNoDup(t: seq<Word>, n: nat)
    requires n <= |t|
    requires forall j: nat, k: nat :: j < |t| && k < |t| && Present(t[j]) && Present(t[k]) && Addr(t[j]) == Addr(t[k]) ==> j == k
    ensures NoDup(TableFrames(t, n))
  {
    if n > 0 {
      TableFramesNoDup(t, n - 1);
      TableFramesAre(t, n - 1, Addr(t[n - 1]));
      hide Present, Addr;
    }
  }

  lemma PageOfEntry(s: Dir, i: nat, k: nat)
    requires Valid(s) && i < 768 && k < 1024 && s.pd[i] != 0
    ensures var e := s.tables[Addr(s.pd[i])][k];
      Lookup(s, 1024 * i + k) == if Present(e) then Some(Mapping(Addr(e), Writable(e))) else None
  {
    assert (1024 * i + k) / 1024 == i && (1024 * i + k) % 1024 == k;
  }

  /** Entry i of the directory frees its page table and the frames that the table maps. */
  lemma EntryFrees(s: Dir, i: nat, a: Word)
    requires Valid(s) && i < 768 && s.pd[i] != 0
    ensures a in TableFrames(s.tables[Addr(s.pd[i])], 1024) <==> exists page: nat :: page / 1024 == i && Maps(s, page, a)
  {
    var t := s.tables[Addr(s.pd[i])];
    TableFramesAre(t, 1024, a);
    hide Present, Addr, Writable;
    if a in TableFrames(t, 1024) {
      var k: nat :| k < 1024 && Present(t[k]) && Addr(t[k]) == a;
      PageOfEntry(s, i, k);
      assert (1024 * i + k) / 1024 == i && Maps(s, 1024 * i + k, a);
    }
    if exists page: nat :: page / 1024 == i && Maps(s, page, a) {
      var page: nat :| page / 1024 == i && Maps(s, page, a);
      assert page == 1024 * i + page % 1024;
      PageOfEntry(s, i, page % 1024);
    }
  }

  ghost predicate TableBelow(s: Dir, n: nat, a: Word)
    requires Valid(s)
  {
    exists i: nat :: i < n && HasTable(s, i, a)
  }

  ghost predicate MappedBelow(s: Dir, n: nat, a: Word)
    requires Valid(s)
  {
    exists page: nat :: page / 1024 < n && Maps(s, page, a)
  }

  lemma TableBelowStep(s: Dir, n: nat, a: Word)
    requires Valid(s) && 0 < n <= 768
    ensures TableBelow(s, n, a) <==> TableBelow(s, n - 1, a) || HasTable(s, n - 1, a)
  {
    hide Addr;
    if TableBelow(s, n - 1, a) {
      var i: nat :| i < n - 1 && HasTable(s, i, a);
      assert i < n && HasTable(s, i, a);
    }
  }

  lemma MappedBelowStep(s: Dir, n: nat, a: Word)
    requires Valid(s) && 0 < n <= 768
    ensures MappedBelow(s, n, a) <==> MappedBelow(s, n - 1, a) || exists page: nat :: page / 1024 == n - 1 && Maps(s, page, a)
  {
    hide Maps;
    if MappedBelow(s, n - 1, a) {
      var page: nat :| page / 1024 < n - 1 && Maps(s, page, a);
      assert page / 1024 < n && Maps(s, page, a);
    }
    if page: nat :| page / 1024 == n - 1 && Maps(s, page, a) {
      assert page / 1024 < n && Maps(s, page, a);
    }
    if MappedBelow(s, n, a) && !MappedBelow(s, n - 1, a) {
      var page: nat :| page / 1024 < n && Maps(s, page, a);
      assert page / 1024 == n - 1;
    }
  }

  /** What is freed is exactly the page tables and the frames that are mapped. */
  lemma {:induction false} FreedIs(s: Dir, n: nat, a: Word)
    requires Valid(s) && n <= 768
    ensures a in Freed(s, n) <==> TableBelow(s, n, a) || MappedBelow(s, n, a)
  {
    if n > 0 {
      FreedIs(s, n - 1, a);
      TableBelowStep(s, n, a);
      MappedBelowStep(s, n, a);
      if s.pd[n - 1] != 0 {
        EntryFrees(s, n - 1, a);
      } else {
        assert forall page: nat :: page / 1024 == n - 1 ==> !Maps(s, page, a);
      }
      hide TableBelow, MappedBelow, Maps, Addr, TableFrames;
    }
  }

  /** The page is a page table, or is mapped. */
  ghost predicate InUse(s: Dir, a: Word)
    requires Valid(s)
  {
    TableBelow(s, 768, a) || MappedBelow(s, 768, a)
  }

  /** Each frame is mapped once, and no frame is a page table. */
  ghost predicate Distinct(s: Dir)
    requires Valid(s)
  {
    && (forall p: nat, q: nat, a: Word :: Maps(s, p, a) && Maps(s, q, a) ==> p == q)
    && (forall p: nat, i: nat, a: Word :: Maps(s, p, a) ==> !HasTable(s, i, a))
  }

  /** Then nothing is freed twice. */
  lemma {:induction false} FreedApart(s: Dir, n: nat)
    requires Valid(s) && n <= 768 && Distinct(s)
    ensures NoDup(Freed(s, n))
  {
    if n > 0 {
      FreedApart(s, n - 1);
      if s.pd[n - 1] != 0 {
        var a := Addr(s.pd[n - 1]);
        var q, f := Freed(s, n - 1), TableFrames(s.tables[a], 1024);
        OneTableOnce(s, n - 1);
        assert HasTable(s, n - 1, a);
        forall x | x in f ensures x !in q && x != a {
          EntryFrees(s, n - 1, x);
          FreedIs(s, n - 1, x);
        }
        assert a !in q by { FreedIs(s, n - 1, a); }
        JoinNoDup(q, f, a);
      }
    }
  }

  /** Not the directory's own page, either. */
  lemma FreedOnce(s: Dir, self: Word)
    requires Valid(s) && Distinct(s) && !InUse(s, self)
    ensures NoDup(Freed(s, 768) + [self])
  {
    FreedApart(s, 768);
    FreedIs(s, 768, self);
    var q := Freed(s, 768);
    assert q + [] + [self] == q + [self];
    JoinNoDup(q, [], self);
  }

  lemma OneTableOnce(s: Dir, i: nat)
    requires Valid(s) && i < 768 && s.pd[i] != 0 && Distinct(s)
    ensures NoDup(TableFrames(s.tables[Addr(s.pd[i])], 1024))
  {
    var t := s.tables[Addr(s.pd[i])];
    forall j: nat, k: nat | j < 1024 && k < 1024 && Present(t[j]) && Present(t[k]) && Addr(t[j]) == Addr(t[k])
      ensures j == k
    {
      PageOfEntry(s, i, j);
      PageOfEntry(s, i, k);
      assert Maps(s, 1024 * i + j, Addr(t[j])) && Maps(s, 1024 * i + k, Addr(t[j]));
    }
    TableFramesNoDup(t, 1024);
  }

  lemma JoinNoDup(q: seq<Word>, f: seq<Word>, a: Word)
    requires NoDup(q) && NoDup(f) && a !in q && forall x :: x in f ==> x !in q && x != a
    ensures NoDup(q + f + [a])
  {
    var r := q + f;
    forall i, j | 0 <= i < j < |r| ensures r[i] != r[j] {
      if i < |q| <= j {
        assert r[j] == f[j - |q|] && f[j - |q|] in f && q[i] in q;
      }
    }
    assert a !in r;
  }

  // ---------------------------------------------------------------- the code, in place

  /** A page directory as the code updates it. "spare" is what palloc_get_page() would return for a
      page table: a zeroed page that is no page table yet, or nothing. */
  class Directory {
    var pd: seq<Word>
    var tables: map<Word, seq<Word>>

    ghost function Contents(): Dir
      reads this
    {
      Dir(pd, tables)
    }

    /** lookup_page(): whether there is an entry for the address. */
    method LookupPage(va: nat, create: bool, spare: Option<Word>) returns (found: bool)
      requires Valid(Contents()) && va < 0xc000_0000
      requires IsSpare(Contents(), spare)
      modifies this
      ensures found <==> old(pd)[PdNo(va)] != 0 || (create && spare.Some?)
      ensures Valid(Contents()) && (found ==> pd[PdNo(va)] != 0)
      ensures Contents() == if create && spare.Some? then WithTable(old(Contents()), va / 4096, spare.value) else old(Contents())
    {
      IndicesArePage(va);
      hide Addr, Present, PdeCreate;
      if pd[PdNo(va)] == 0 {
        if !create || spare == None {
          return false;
        }
        WithTableValid(Contents(), va / 4096, spare.value);
        tables := tables[spare.value := seq(1024, _ => 0)];
        pd := pd[PdNo(va) := PdeCreate(spare.value)];
      }
      return true;
    }

    /** pagedir_set_page(): fails only for want of a page table. */
    method SetPageAt(upage: nat, kpage: Word, writable: bool, spare: Option<Word>) returns (ok: bool)
      requires Valid(Contents()) && upage < 0xc000_0000 && upage % 4096 == 0 && Aligned(kpage)
      requires IsSpare(Contents(), spare)
      requires Lookup(Contents(), upage / 4096) == None
      modifies this
      ensures ok == old(CanSet(Contents(), upage / 4096, spare))
      ensures Contents() == if ok then SetPage(old(Contents()), upage / 4096, kpage, writable, spare) else old(Contents())
      ensures Valid(Contents())
      ensures forall q: nat :: q < 0xc0000 ==>
        Lookup(Contents(), q) == if ok && q == upage / 4096 then Some(Mapping(kpage, writable)) else old(Lookup(Contents(), q))
    {
      ghost var before := Contents();
      var page := upage / 4096;
      IndicesArePage(upage);
      ok := LookupPage(upage, true, spare);
      if ok {
        ghost var mid := Contents();
        assert CanSet(before, page, spare);
        hide Valid, WithTable, Addr, Present, PteCreate;
        var a := TableOf(page);
        var t: seq<Word> := tables[a];
        t := t[PtNo(upage) := PteCreate(kpage, writable)];
        tables := tables[a := t];
        assert Contents() == SetEntry(mid, page, PteCreate(kpage, writable));
        forall q: nat | q < 0xc0000
          ensures Valid(Contents())
          ensures Lookup(Contents(), q) == if q == page then Some(Mapping(kpage, writable)) else Lookup(before, q)
        {
          SetPageMaps(before, page, kpage, writable, spare, q);
        }
        SetPageMaps(before, page, kpage, writable, spare, page);
      }
    }

    /** pde_get_pt() of the page's directory entry. */
    function TableOf(page: nat): (a: Word)
      reads this
      requires Valid(Contents()) && page < 0xc0000 && pd[page / 1024] != 0
      ensures a in tables && |tables[a]| == 1024 && a == Addr(pd[page / 1024])
    {
      Addr(pd[page / 1024])
    }

    /** pagedir_get_page(), with the physical address instead of its kernel virtual address. */
    method GetPage(uaddr: nat) returns (r: Option<nat>)
      requires Valid(Contents()) && uaddr < 0xc000_0000
      ensures r == match Lookup(Contents(), uaddr / 4096)
                   case None => None
                   case Some(m) => Some(m.frame + uaddr % 4096)
    {
      IndicesArePage(uaddr);
      if pd[PdNo(uaddr)] == 0 {
        return None;
      }
      var pte := tables[Addr(pd[PdNo(uaddr)])][PtNo(uaddr)];
      if Present(pte) {
        return Some(Addr(pte) + uaddr % 4096);
      }
      return None;
    }

    /** pagedir_clear_page(). */
    method ClearPageAt(upage: nat)
      requires Valid(Contents()) && upage < 0xc000_0000 && upage % 4096 == 0
      modifies this
      ensures Contents() == ClearPage(old(Contents()), upage / 4096)
    {
      IndicesArePage(upage);
      if pd[PdNo(upage)] != 0 {
        var a := TableOf(upage / 4096);
        var pte := tables[a][PtNo(upage)];
        if Present(pte) {
          var t: seq<Word> := tables[a][PtNo(upage) := Absent(pte)];
          tables := tables[a := t];
        }
      }
    }

    /** pagedir_destroy(): the pages it frees, in order; "self" is the directory's own page. */
    method Destroy(self: Word) returns (freed: seq<Word>)
      requires Valid(Contents())
      ensures freed == Freed(Contents(), 768) + [self]
      ensures Distinct(Contents()) && !InUse(Contents(), self) ==> NoDup(freed)
    {
      freed := [];
      for i := 0 to 768
        invariant freed == Freed(Contents(), i)
      {
        if Present(pd[i]) {
          var a := TableOf(1024 * i);
          var fs := DestroyTable(a);
          freed := freed + fs + [a];
        } else {
          ZeroIsAbsent();
        }
      }
      freed := freed + [self];
      if Distinct(Contents()) && !InUse(Contents(), self) {
        FreedOnce(Contents(), self);
      }
    }

    /** The inner loop, over one page table. */
    method DestroyTable(a: Word) returns (freed: seq<Word>)
      requires a in tables && |tables[a]| == 1024
      ensures freed == TableFrames(tables[a], 1024)
    {
      var t := tables[a];
      freed := [];
      for k := 0 to 1024
        invariant freed == TableFrames(t, k)
      {
        if Present(t[k]) {
          freed := freed + [Addr(t[k])];
        }
      }
    }
  }
}
