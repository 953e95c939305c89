/** What a user process sees of its memory. */
module AddressSpace {
  /*
   An address space is a map from user pages to their contents. A page directory, its page tables and the
   frames that they map stand for one. The pages that are left come from two pools: frames from the user
   pool, page tables from the kernel pool. A pool is the sequence of pages it will hand out.
   */

  import opened Common
  import opened PageDir

  datatype Frame = Frame(bytes: seq<Byte>, writable: bool)

  /** What user pages hold. */
  type Space = map<nat, Frame>

  datatype Memory = Memory(d: Dir, frames: map<Word, seq<Byte>>, user: seq<Word>, kernel: seq<Word>)

  /** A page directory and the contents of frames stand for an address space. */
  ghost predicate Represents(d: Dir, frames: map<Word, seq<Byte>>, s: Space) {
    && Valid(d)
    && (forall p :: p in s ==> p < 0xc0000)
    && forall p: nat :: p < 0xc0000 ==>
         match Lookup(d, p)
         case None => p !in s
         case Some(x) => p in s && x.frame in frames && s[p] == Frame(frames[x.frame], x.writable)
  }

  /** The page tables that the pages of an address space need. */
  function Tables(s: Space): set<nat> {
    set p | p in s :: p / 1024
  }

  /** There is a page table just where a page needs one. */
  ghost predicate TablesMatch(d: Dir, s: Space)
    requires |d.pd| == 1024
  {
    forall i: nat :: i < 768 ==> (d.pd[i] != 0 <==> i in Tables(s))
  }

  ghost predicate Mapped(d: Dir, a: Word)
    requires Valid(d)
  {
    exists p: nat :: Maps(d, p, a)
  }

  ghost predicate Unused(d: Dir, a: Word)
    requires Valid(d)
  {
    Aligned(a) && a !in d.tables && !Mapped(d, a)
  }

  /** Every page is in one place only. */
  ghost predicate PoolsApart(m: Memory)
    requires Valid(m.d)
  {
    && NoDup(m.user) && NoDup(m.kernel)
    && (forall a :: a in m.user ==> Unused(m.d, a) && a !in m.kernel)
    && (forall a :: a in m.kernel ==> Unused(m.d, a))
  }

  ghost predicate Sound(m: Memory, s: Space) {
    Represents(m.d, m.frames, s) && Distinct(m.d) && TablesMatch(m.d, s) && PoolsApart(m)
  }

  // ---------------------------------------------------------------- one more page

  /** Filling a frame that no page maps and installing it adds just that page to the address space. */
  lemma InstallRefines(d: Dir, frames: map<Word, seq<Byte>>, s: Space, page: nat, kpage: Word, writable: bool,
                       spare: Option<Word>)
    requires Represents(d, frames, s) && page < 0xc0000 && page !in s && kpage in frames
    requires Aligned(kpage) && IsSpare(d, spare) && CanSet(d, page, spare)
    ensures Represents(SetPage(d, page, kpage, writable, spare), frames, s[page := Frame(frames[kpage], writable)])
  {
    hide Valid, Lookup, Aligned;
    SetPageMaps(d, page, kpage, writable, spare, page);
    forall p: nat | p < 0xc0000
      ensures Lookup(SetPage(d, page, kpage, writable, spare), p) ==
        if p == page then Some(Mapping(kpage, writable)) else Lookup(d, p)
    {
      SetPageMaps(d, page, kpage, writable, spare, p);
    }
    hide SetPage;
  }

  /** What is new in the directory: the one mapping, and the one table if it was missing. */
  lemma SetPageShape(d: Dir, page: nat, kpage: Word, writable: bool, spare: Option<Word>)
    requires Valid(d) && page < 0xc0000 && Aligned(kpage) && IsSpare(d, spare) && CanSet(d, page, spare)
    ensures var g := SetPage(d, page, kpage, writable, spare); var i := page / 1024;
      && Valid(g) && g.pd[i] != 0 && (forall j: nat :: j < 1024 && j != i ==> g.pd[j] == d.pd[j])
      && (d.pd[i] != 0 ==> g.pd[i] == d.pd[i] && g.tables.Keys == d.tables.Keys)
      && (d.pd[i] == 0 ==> Addr(g.pd[i]) == spare.value && g.tables.Keys == d.tables.Keys + {spare.value})
  {
    SetPageMaps(d, page, kpage, writable, spare, page);
    if spare.Some? {
      EntryRoundTrip(spare.value, true);
      WithTableValid(d, page, spare.value);
    }
    hide Addr, Present, Writable, PteCreate, PdeCreate, Aligned;
    assert Valid(d) && d.pd[page / 1024] != 0 ==> Addr(d.pd[page / 1024]) in d.tables;
  }

  lemma MapsAfter(d: Dir, page: nat, kpage: Word, writable: bool, spare: Option<Word>, p: nat, a: Word)
    requires Valid(d) && page < 0xc0000 && Aligned(kpage) && IsSpare(d, spare) && CanSet(d, page, spare)
    ensures var g := SetPage(d, page, kpage, writable, spare);
      Valid(g) && (Maps(g, p, a) <==> if p == page then a == kpage else Maps(d, p, a))
  {
    SetPageMaps(d, page, kpage, writable, spare, if p < 0xc0000 then p else page);
    hide Valid, SetPage, Lookup;
  }

  lemma MappedAfter(d: Dir, page: nat, kpage: Word, writable: bool, spare: Option<Word>, a: Word)
    requires Valid(d) && page < 0xc0000 && Aligned(kpage) && IsSpare(d, spare) && CanSet(d, page, spare)
    ensures Valid(SetPage(d, page, kpage, writable, spare))
    ensures Mapped(SetPage(d, page, kpage, writable, spare), a) ==> a == kpage || Mapped(d, a)
  {
    SetPageShape(d, page, kpage, writable, spare);
    var g := SetPage(d, page, kpage, writable, spare);
    hide SetPage, Valid, Maps;
    if Mapped(g, a) {
      var p: nat :| Maps(g, p, a);
      MapsAfter(d, page, kpage, writable, spare, p, a);
    }
  }

  lemma HasTableAfter(d: Dir, page: nat, kpage: Word, writable: bool, spare: Option<Word>, i: nat, a: Word)
    requires Valid(d) && page < 0xc0000 && Aligned(kpage) && IsSpare(d, spare) && CanSet(d, page, spare)
    ensures var g := SetPage(d, page, kpage, writable, spare);
      Valid(g) && (HasTable(g, i, a) ==> HasTable(d, i, a) || (d.pd[page / 1024] == 0 && a == spare.value))
  {
    SetPageShape(d, page, kpage, writable, spare);
    hide SetPage, Addr;
  }

  lemma TableIsTable(d: Dir, i: nat, a: Word)
    requires Valid(d) && HasTable(d, i, a)
    ensures a in d.tables
  {
  }

  /** A fresh frame and, if needed, a fresh table keep frames mapped once and apart from the tables. */
  lemma DistinctAfter(d: Dir, page: nat, kpage: Word, writable: bool, spare: Option<Word>)
    requires Valid(d) && Distinct(d) && page < 0xc0000 && IsSpare(d, spare) && CanSet(d, page, spare)
    requires Unused(d, kpage) && (spare.Some? ==> Unused(d, spare.value) && spare.value != kpage)
    ensures Valid(SetPage(d, page, kpage, writable, spare)) && Distinct(SetPage(d, page, kpage, writable, spare))
  {
    SetPageShape(d, page, kpage, writable, spare);
    var g := SetPage(d, page, kpage, writable, spare);
    hide SetPage, Valid, Maps, HasTable;
    forall p: nat, q: nat, a: Word | Maps(g, p, a) && Maps(g, q, a) ensures p == q {
      MapsAfter(d, page, kpage, writable, spare, p, a);
      MapsAfter(d, page, kpage, writable, spare, q, a);
    }
    forall p: nat, i: nat, a: Word | Maps(g, p, a) ensures !HasTable(g, i, a) {
      MapsAfter(d, page, kpage, writable, spare, p, a);
      HasTableAfter(d, page, kpage, writable, spare, i, a);
      if HasTable(d, i, a) {
        TableIsTable(d, i, a);
      }
    }
  }

  lemma TablesAfter(d: Dir, s: Space, page: nat, kpage: Word, f: Frame, spare: Option<Word>)
    requires Valid(d) && TablesMatch(d, s) && page < 0xc0000 && Aligned(kpage) && IsSpare(d, spare) && CanSet(d, page, spare)
    ensures Valid(SetPage(d, page, kpage, f.writable, spare))
    ensures TablesMatch(SetPage(d, page, kpage, f.writable, spare), s[page := f])
    ensures Tables(s[page := f]) == Tables(s) + {page / 1024}
  {
    SetPageShape(d, page, kpage, f.writable, spare);
    hide SetPage;
    AddTable(s, page, f);
    hide Tables;
  }

  lemma AddTable(s: Space, page: nat, f: Frame)
    ensures Tables(s[page := f]) == Tables(s) + {page / 1024}
    ensures |Tables(s[page := f])| == |Tables(s)| + if page / 1024 in Tables(s) then 0 else 1
  {
    if page / 1024 in Tables(s) {
      assert Tables(s) + {page / 1024} == Tables(s);
    }
    var r := s[page := f];
    forall i | i in Tables(s) ensures i in Tables(r) {
      var p :| p in s && p / 1024 == i;
      assert p in r;
    }
    assert page in r;
  }

  /** The first page of a pool, and what is left of it. */
  function First(pool: seq<Word>): Option<Word> {
    if pool == [] then None else Some(pool[0])
  }

  /** The memory after the first user page has been installed. */
  function Installed(m: Memory, page: nat, writable: bool): Memory
    requires Valid(m.d) && page < 0xc0000 && m.user != [] && Aligned(m.user[0])
    requires IsSpare(m.d, First(m.kernel)) && CanSet(m.d, page, First(m.kernel))
  {
    Memory(SetPage(m.d, page, m.user[0], writable, First(m.kernel)), m.frames, m.user[1..],
           if m.d.pd[page / 1024] == 0 then m.kernel[1..] else m.kernel)
  }

  lemma SpareIsUnused(m: Memory)
    requires Valid(m.d) && PoolsApart(m)
    ensures IsSpare(m.d, First(m.kernel))
    ensures m.kernel != [] ==> Unused(m.d, m.kernel[0]) && m.kernel[0] in m.kernel
    ensures m.user != [] ==> Unused(m.d, m.user[0]) && m.user[0] in m.user && m.user[0] !in m.kernel
  {
    hide Unused;
    assert m.kernel != [] ==> m.kernel[0] in m.kernel;
    assert m.user != [] ==> m.user[0] in m.user;
    if m.kernel != [] {
      UnusedIs(m.d, m.kernel[0]);
    }
  }

  lemma UnusedIs(d: Dir, a: Word)
    requires Valid(d) && Unused(d, a)
    ensures Aligned(a) && a !in d.tables && !Mapped(d, a)
  {
  }

  lemma PoolsAfter(m: Memory, page: nat, writable: bool)
    requires Valid(m.d) && PoolsApart(m) && page < 0xc0000 && m.user != [] && Aligned(m.user[0])
    requires IsSpare(m.d, First(m.kernel)) && CanSet(m.d, page, First(m.kernel))
    ensures Valid(Installed(m, page, writable).d) && PoolsApart(Installed(m, page, writable))
  {
    var r := Installed(m, page, writable);
    SetPageShape(m.d, page, m.user[0], writable, First(m.kernel));
    SpareIsUnused(m);
    TailNoDup(m.user);
    if m.kernel != [] {
      TailNoDup(m.kernel);
    }
    hide SetPage, Mapped, Valid;
    forall a | a in m.user[1..] || (a in m.kernel && (m.d.pd[page / 1024] == 0 ==> a != m.kernel[0])) ensures Unused(r.d, a) {
      MappedAfter(m.d, page, m.user[0], writable, First(m.kernel), a);
      assert a in m.user || a in m.kernel;
    }
  }

  /** Installing the first user page keeps everything in its place. */
  lemma InstallSound(m: Memory, s: Space, page: nat, writable: bool)
    requires Sound(m, s) && page < 0xc0000 && page !in s && m.user != [] && m.user[0] in m.frames
    requires IsSpare(m.d, First(m.kernel)) && CanSet(m.d, page, First(m.kernel)) && Aligned(m.user[0])
    ensures Sound(Installed(m, page, writable), s[page := Frame(m.frames[m.user[0]], writable)])
  {
    var kpage, spare := m.user[0], First(m.kernel);
    SpareIsUnused(m);
    InstallRefines(m.d, m.frames, s, page, kpage, writable, spare);
    DistinctAfter(m.d, page, kpage, writable, spare);
    TablesAfter(m.d, s, page, kpage, Frame(m.frames[kpage], writable), spare);
    PoolsAfter(m, page, writable);
    hide Represents, Distinct, TablesMatch, PoolsApart, SetPage;
  }

  /** Writing to a page of a pool changes no address space. */
  lemma FillSound(m: Memory, s: Space, a: Word, bytes: seq<Byte>)
    requires Sound(m, s) && a in m.user
    ensures Sound(m.(frames := m.frames[a := bytes]), s)
  {
    hide Distinct, TablesMatch;
    assert Unused(m.d, a);
    forall p: nat | p < 0xc0000 && Lookup(m.d, p).Some? ensures Lookup(m.d, p).value.frame != a {
      assert !Maps(m.d, p, a);
    }
    hide Valid, Lookup;
  }

  /** What install_page() finds. */
  lemma BeforeInstall(m: Memory, s: Space, page: nat)
    requires Sound(m, s) && page < 0xc0000 && m.user != []
    ensures Valid(m.d) && IsSpare(m.d, First(m.kernel)) && Aligned(m.user[0])
    ensures Lookup(m.d, page) == None <==> page !in s
    ensures CanSet(m.d, page, First(m.kernel)) <==> |Tables(s) + {page / 1024}| <= |Tables(s)| + |m.kernel|
    ensures |m.d.pd| == 1024 && (m.d.pd[page / 1024] == 0 <==> page / 1024 !in Tables(s))
  {
    SpareIsUnused(m);
    TableToHave(m, s, page);
    hide Distinct, TablesMatch, PoolsApart;
  }

  /** What install_page() leaves. */
  lemma AfterInstall(m: Memory, s: Space, page: nat, writable: bool)
    requires Sound(m, s) && page < 0xc0000 && page !in s && m.user != [] && m.user[0] in m.frames
    requires Valid(m.d) && IsSpare(m.d, First(m.kernel)) && CanSet(m.d, page, First(m.kernel)) && Aligned(m.user[0])
    ensures var f := Frame(m.frames[m.user[0]], writable);
      var kernel := if m.d.pd[page / 1024] == 0 then m.kernel[1..] else m.kernel;
      Sound(Memory(SetPage(m.d, page, m.user[0], writable, First(m.kernel)), m.frames, m.user[1..], kernel), s[page := f])
    ensures m.d.pd[page / 1024] == 0 ==> m.kernel != []
  {
    InstallSound(m, s, page, writable);
    hide Sound, SetPage, Tables;
  }

  /** There is a table for the page, or a page to make one of, exactly if the tables in use and this one are
      no more than the tables in use and the pages left. */
  lemma TableToHave(m: Memory, s: Space, page: nat)
    requires Sound(m, s) && page < 0xc0000
    ensures CanSet(m.d, page, First(m.kernel)) <==> |Tables(s) + {page / 1024}| <= |Tables(s)| + |m.kernel|
    ensures m.d.pd[page / 1024] == 0 <==> page / 1024 !in Tables(s)
  {
    if page / 1024 in Tables(s) {
      assert Tables(s) + {page / 1024} == Tables(s);
    }
  }
}
