/** Who owns which sector. */
module FileSys {
  /*
   Who owns which sector: filesys.c, directory.c, inode.c and free-map.c. A file is an inode sector
   and an extent of data sectors. A name in the root directory keeps a file alive, and so does each
   opener; a file that is removed while open loses its name at once and its sectors at its last
   close. A run is any sequence of the calls below; memory allocation and the write of the free map
   to its file succeed.
   */

  import opened Common
  import opened Bitmap
  import opened InodeIO

  /** struct inode_disk. */
  datatype Header = Header(start: nat, length: nat)

  /** The contents of a sector: an inode, or bytes. */
  datatype Block = Inode(h: Header) | Data(bytes: seq<Byte>)

  /** struct dir_entry. */
  datatype Entry = Free | Used(name: string, sector: nat)

  /** struct inode. */
  datatype Opened = Opened(cnt: nat, removed: bool, data: Header)

  /** The free map (true means in use), the sectors, the entries of the root directory and the open
      inodes by sector. */
  datatype FS = FS(used: seq<bool>, blocks: seq<Block>, dir: seq<Entry>, open: map<nat, Opened>)

  const FREE_MAP_SECTOR := 0
  const ROOT_DIR_SECTOR := 1
  const NAME_MAX := 14

  // ---------------------------------------------------------------- free-map.c

  /** free_map_allocate(): the sectors and the first of them. */
  function Allocate(fs: FS, n: nat): Option<(FS, nat)> {
    match Scan(fs.used, 0, n, false)
    case None => None
    case Some(i) => Some((fs.(used := Marked(fs.used, i, n, true)), i))
  }

  /** Whether the assertion in free_map_release() holds. */
  predicate CanRelease(fs: FS, i: nat, n: nat) {
    i + n <= |fs.used| && forall x :: i <= x < i + n ==> fs.used[x]
  }

  /** free_map_release(). */
  function Release(fs: FS, i: nat, n: nat): FS {
    if i + n <= |fs.used| then fs.(used := Marked(fs.used, i, n, false)) else fs
  }

  // ---------------------------------------------------------------- inode.c

  function Filled(b: seq<Block>, i: nat, n: nat): (r: seq<Block>)
    requires i + n <= |b|
    ensures |r| == |b|
    ensures forall x :: 0 <= x < |b| && !(i <= x < i + n) ==> r[x] == b[x]
  {
    b[..i] + seq(n, _ => Data(ZeroSector())) + b[i + n..]
  }

  /** inode_create(): allocates the extent, writes the inode to its sector and zeros the extent. */
  function InodeCreate(fs: FS, sector: nat, length: nat): Option<FS>
    requires |fs.blocks| == |fs.used| && sector < |fs.blocks|
  {
    match Allocate(fs, Sectors(length))
    case None => None
    case Some((f, start)) =>
      Some(f.(blocks := Filled(f.blocks[sector := Inode(Header(start, length))], start, Sectors(length))))
  }

  function HeaderAt(fs: FS, o: nat): Header {
    if o < |fs.blocks| && fs.blocks[o].Inode? then fs.blocks[o].h else Header(0, 0)
  }

  /** inode_open(): shares the open inode of that sector, or reads it. */
  function InodeOpen(fs: FS, o: nat): FS {
    if o in fs.open then fs.(open := fs.open[o := fs.open[o].(cnt := fs.open[o].cnt + 1)])
    else fs.(open := fs.open[o := Opened(1, false, HeaderAt(fs, o))])
  }

  /** inode_close(): the last close of a removed inode releases its sectors. */
  function InodeClose(fs: FS, o: nat): FS
    requires o in fs.open && fs.open[o].cnt > 0
  {
    var x := fs.open[o];
    if x.cnt > 1 then fs.(open := fs.open[o := x.(cnt := x.cnt - 1)])
    else
      var gone := fs.(open := fs.open - {o});
      if x.removed then Release(Release(gone, o, 1), x.data.start, Sectors(x.data.length)) else gone
  }

  // ---------------------------------------------------------------- directory.c

  /** lookup(): the first slot in use under that name. */
  function Lookup(dir: seq<Entry>, name: string): (r: Option<nat>)
    ensures r.Some? ==> r.value < |dir| && dir[r.value].Used? && dir[r.value].name == name
    ensures r == None ==> forall i :: 0 <= i < |dir| && dir[i].Used? ==> dir[i].name != name
  {
    LookupFrom(dir, name, 0)
  }

  function LookupFrom(dir: seq<Entry>, name: string, i: nat): (r: Option<nat>)
    ensures r.Some? ==> i <= r.value < |dir| && dir[r.value].Used? && dir[r.value].name == name
    ensures r.Some? ==> forall k :: i <= k < r.value && dir[k].Used? ==> dir[k].name != name
    ensures r == None ==> forall k :: i <= k < |dir| && dir[k].Used? ==> dir[k].name != name
    decreases |dir| - i
  {
    if i >= |dir| then None
    else if dir[i].Used? && dir[i].name == name then Some(i)
    else LookupFrom(dir, name, i + 1)
  }

  /** The first free slot. */
  function FreeSlot(dir: seq<Entry>, i: nat): (r: Option<nat>)
    ensures r.Some? ==> i <= r.value < |dir| && dir[r.value].Free?
    ensures r.Some? ==> forall k :: i <= k < r.value ==> dir[k].Used?
    ensures r == None ==> forall k :: i <= k < |dir| ==> dir[k].Used?
    decreases |dir| - i
  {
    if i >= |dir| then None else if dir[i].Free? then Some(i) else FreeSlot(dir, i + 1)
  }

  /** dir_add(): fails on a bad name, a name in use, or a full directory, which cannot grow. */
  function DirAdd(dir: seq<Entry>, name: string, sector: nat): Option<seq<Entry>> {
    if name == "" || |name| > NAME_MAX || Lookup(dir, name).Some? then None
    else match FreeSlot(dir, 0)
      case None => None
      case Some(i) => Some(dir[i := Used(name, sector)])
  }

  // ---------------------------------------------------------------- filesys.c

  /** filesys_create(): when the directory refuses the name, only the inode sector is released. */
  function Create(fs: FS, name: string, size: nat): (FS, bool)
    requires |fs.blocks| == |fs.used|
  {
    match Allocate(fs, 1)
    case None => (fs, false)
    case Some((f, sector)) =>
      match InodeCreate(f, sector, size)
      case None => (if sector != 0 then Release(f, sector, 1) else f, false)
      case Some(g) =>
        match DirAdd(g.dir, name, sector)
        case None => (if sector != 0 then Release(g, sector, 1) else g, false)
        case Some(d) => (g.(dir := d), true)
  }

  /** filesys_open(): the sector names the handle. */
  function Open(fs: FS, name: string): (FS, Option<nat>) {
    match Lookup(fs.dir, name)
    case None => (fs, None)
    case Some(i) => (InodeOpen(fs, fs.dir[i].sector), Some(fs.dir[i].sector))
  }

  /** filesys_remove(): erases the entry and marks the inode, which lives on while it is open. */
  function Remove(fs: FS, name: string): (FS, bool) {
    match Lookup(fs.dir, name)
    case None => (fs, false)
    case Some(i) =>
      var o := fs.dir[i].sector;
      var f := InodeOpen(fs, o).(dir := fs.dir[i := Free]);
      var g := f.(open := f.open[o := f.open[o].(removed := true)]);
      (InodeClose(g, o), true)
  }

  /** One sector's share of inode_write_at() through handle o: InodeIO shows that a write changes
      only sectors of the extent. */
  function WriteSector(fs: FS, o: nat, k: nat, bytes: seq<Byte>): FS {
    if o in fs.open && k < Sectors(fs.open[o].data.length) && fs.open[o].data.start + k < |fs.blocks|
    then fs.(blocks := fs.blocks[fs.open[o].data.start + k := Data(bytes)])
    else fs
  }

  datatype Call =
    | CCreate(name: string, size: nat)
    | COpen(name: string)
    | CRemove(name: string)
    | CReopen(handle: nat)
    | CClose(handle: nat)
    | CWrite(handle: nat, k: nat, bytes: seq<Byte>)

  /** A handle is used only while it is open, and the free map's own file stays open. */
  predicate Allowed(fs: FS, c: Call) {
    match c
    case CReopen(o) => o in fs.open && o != FREE_MAP_SECTOR
    case CClose(o) => o in fs.open && o != FREE_MAP_SECTOR && fs.open[o].cnt > 0
    case CWrite(o, _, _) => o in fs.open && o != FREE_MAP_SECTOR
    case _ => |fs.blocks| == |fs.used|
  }

  function Next(fs: FS, c: Call): FS {
    if !Allowed(fs, c) then fs
    else match c
      case CCreate(name, size) => Create(fs, name, size).0
      case COpen(name) => Open(fs, name).0
      case CRemove(name) => Remove(fs, name).0
      case CReopen(o) => InodeOpen(fs, o)
      case CClose(o) => InodeClose(fs, o)
      case CWrite(o, k, bytes) => WriteSector(fs, o, k, bytes)
  }

  function Run(fs: FS, calls: seq<Call>): FS
    decreases |calls|
  {
    if calls == [] then fs else Next(Run(fs, calls[..|calls| - 1]), calls[|calls| - 1])
  }

  /** do_format() on a device of n sectors, then free_map_open(). */
  function Format(n: nat): Option<FS>
    requires n >= 2
  {
    var blank := FS(Marked(seq(n, _ => false), 0, 2, true), seq(n, _ => Data(ZeroSector())), seq(16, _ => Free), map[]);
    match InodeCreate(blank, FREE_MAP_SECTOR, 4 * ((n + 31) / 32))
    case None => None
    case Some(f) =>
      match InodeCreate(f, ROOT_DIR_SECTOR, 16 * 20)
      case None => None
      case Some(g) => Some(InodeOpen(g, FREE_MAP_SECTOR))
  }

  // ---------------------------------------------------------------- ownership

  ghost predicate Named(fs: FS, o: nat) {
    exists i :: 0 <= i < |fs.dir| && fs.dir[i].Used? && fs.dir[i].sector == o
  }

  /** The free map, the root directory, every file with a name and every open file. */
  ghost predicate Owner(fs: FS, o: nat) {
    o < 2 || Named(fs, o) || o in fs.open
  }

  /** Sector x belongs to the inode in sector o: it is o itself or in the extent. */
  ghost predicate InFoot(h: Header, o: nat, x: nat) {
    x == o || h.start <= x < h.start + Sectors(h.length)
  }

  /** An owner's inode is where it should be, and its sectors are on the device and marked. */
  ghost predicate Good(fs: FS, o: nat) {
    && o < |fs.blocks| && fs.blocks[o].Inode?
    && var h := fs.blocks[o].h;
       && h.start + Sectors(h.length) <= |fs.blocks|
       && !(h.start <= o < h.start + Sectors(h.length))
       && forall x: nat :: InFoot(h, o, x) ==> x < |fs.used| && fs.used[x]
  }

  ghost predicate Apart(fs: FS, o: nat, p: nat) {
    forall x: nat :: !(InFoot(HeaderAt(fs, o), o, x) && InFoot(HeaderAt(fs, p), p, x))
  }

  /** The owners' sectors are pairwise disjoint, on the device and marked in the free map. */
  ghost predicate OwnInv(fs: FS) {
    && |fs.used| == |fs.blocks| >= 2
    && (forall o :: Owner(fs, o) ==> Good(fs, o))
    && (forall o, p :: Owner(fs, o) && Owner(fs, p) && o != p ==> Apart(fs, o, p))
  }

  /** Entries in use have different names and different inodes, none of them a reserved one. */
  ghost predicate DirInv(fs: FS) {
    && (forall i, j :: 0 <= i < j < |fs.dir| && fs.dir[i].Used? && fs.dir[j].Used? ==>
          fs.dir[i].name != fs.dir[j].name && fs.dir[i].sector != fs.dir[j].sector)
    && (forall i :: 0 <= i < |fs.dir| && fs.dir[i].Used? ==> fs.dir[i].sector >= 2)
  }

  /** An open inode has openers and the contents of its sector, and is removed exactly if it has
      lost its name. The free map stays open. */
  ghost predicate OpenInv(fs: FS) {
    && FREE_MAP_SECTOR in fs.open
    && forall o :: o in fs.open ==>
         && fs.open[o].cnt > 0
         && fs.open[o].data == HeaderAt(fs, o)
         && (fs.open[o].removed <==> o >= 2 && !Named(fs, o))
  }

  ghost predicate Inv(fs: FS) {
    OwnInv(fs) && DirInv(fs) && OpenInv(fs)
  }

  // ---------------------------------------------------------------- frames

  /** Owner o of g was an owner of fs, with the same inode, and its sectors are still marked. */
  ghost predicate Kept(fs: FS, g: FS, o: nat) {
    && Owner(fs, o)
    && o < |g.blocks| == |fs.blocks| && g.blocks[o] == fs.blocks[o]
    && forall x: nat :: InFoot(HeaderAt(fs, o), o, x) ==> x < |g.used| && g.used[x]
  }

  lemma OwnFrame(fs: FS, g: FS)
    requires OwnInv(fs) && |g.used| == |g.blocks| == |fs.blocks|
    requires forall o: nat :: Owner(g, o) ==> Kept(fs, g, o)
    ensures OwnInv(g)
  {
    forall o: nat | Owner(g, o) ensures Good(g, o) && HeaderAt(g, o) == HeaderAt(fs, o) {
      assert Kept(fs, g, o) && Good(fs, o);
    }
    forall o: nat, p: nat | Owner(g, o) && Owner(g, p) && o != p ensures Apart(g, o, p) {
      assert Kept(fs, g, o) && Kept(fs, g, p);
      assert Apart(fs, o, p);
    }
  }

  /** An owner stays one under a step that leaves sectors and free map alone. */
  lemma KeptSame(fs: FS, g: FS, o: nat)
    requires OwnInv(fs) && Owner(fs, o) && g.blocks == fs.blocks && g.used == fs.used
    ensures Kept(fs, g, o)
  {
    assert Good(fs, o);
  }

  /** A free sector belongs to no owner. */
  lemma FreeIsUnowned(fs: FS, o: nat, x: nat)
    requires OwnInv(fs) && Owner(fs, o) && x < |fs.used| && !fs.used[x]
    ensures !InFoot(HeaderAt(fs, o), o, x) && o != x
  {
    assert Good(fs, o);
  }

  // ---------------------------------------------------------------- open and close

  /** Which inodes have names depends on the directory alone. */
  lemma NamedSame(fs: FS, g: FS, o: nat)
    requires g.dir == fs.dir
    ensures Named(g, o) <==> Named(fs, o)
  {
  }

  /** A change of the open inodes that opens and closes no owner for good. */
  lemma OwnOpenFrame(fs: FS, g: FS)
    requires OwnInv(fs) && g.blocks == fs.blocks && g.used == fs.used && g.dir == fs.dir
    requires forall p :: p in g.open ==> Owner(fs, p)
    ensures OwnInv(g)
  {
    forall o: nat | Owner(g, o) ensures Kept(fs, g, o) {
      NamedSame(fs, g, o);
      KeptSame(fs, g, o);
    }
    OwnFrame(fs, g);
  }

  lemma InodeOpenInv(fs: FS, o: nat)
    requires Inv(fs) && Owner(fs, o)
    ensures Inv(InodeOpen(fs, o))
  {
    var g := InodeOpen(fs, o);
    hide OwnInv;
    OwnOpenFrame(fs, g);
    forall p | p in g.open
      ensures g.open[p].cnt > 0 && g.open[p].data == HeaderAt(g, p) && (g.open[p].removed <==> p >= 2 && !Named(g, p))
    {
      NamedSame(fs, g, p);
    }
  }

  /** A close that leaves openers, or that leaves a file with a name, changes no ownership. */
  lemma PlainCloseInv(fs: FS, o: nat)
    requires Inv(fs) && o in fs.open && o != FREE_MAP_SECTOR && (fs.open[o].cnt > 1 || !fs.open[o].removed)
    ensures Inv(InodeClose(fs, o))
  {
    var g := InodeClose(fs, o);
    hide OwnInv;
    OwnOpenFrame(fs, g);
    forall p | p in g.open
      ensures g.open[p].cnt > 0 && g.open[p].data == HeaderAt(g, p) && (g.open[p].removed <==> p >= 2 && !Named(g, p))
    {
      NamedSame(fs, g, p);
    }
  }

  /** The last close of a removed file: the assertions of both releases hold, exactly its sectors
      become free, and nothing else changes. */
  lemma LastClose(fs: FS, o: nat)
    requires Inv(fs) && o in fs.open && fs.open[o].cnt == 1 && fs.open[o].removed
    ensures var h := fs.open[o].data; var gone := fs.(open := fs.open - {o}); var g := InodeClose(fs, o);
      && CanRelease(gone, o, 1) && CanRelease(Release(gone, o, 1), h.start, Sectors(h.length))
      && g.blocks == fs.blocks && g.dir == fs.dir && g.open == fs.open - {o} && |g.used| == |fs.used|
      && forall x: nat :: x < |fs.used| ==> (g.used[x] <==> fs.used[x] && !InFoot(h, o, x))
  {
    assert Good(fs, o);
    var h := fs.open[o].data;
    assert forall x: nat :: h.start <= x < h.start + Sectors(h.length) ==> InFoot(h, o, x);
    assert InFoot(h, o, o);
  }

  lemma LastCloseInv(fs: FS, o: nat)
    requires Inv(fs) && o in fs.open && fs.open[o].cnt == 1 && fs.open[o].removed
    ensures Inv(InodeClose(fs, o))
  {
    var g := InodeClose(fs, o);
    LastClose(fs, o);
    hide InodeClose;
    forall p: nat | Owner(g, p) ensures Kept(fs, g, p) {
      NamedSame(fs, g, p);
      assert p != o;
      assert Apart(fs, o, p) && Good(fs, p);
    }
    OwnFrame(fs, g);
    forall p | p in g.open
      ensures g.open[p].cnt > 0 && g.open[p].data == HeaderAt(g, p) && (g.open[p].removed <==> p >= 2 && !Named(g, p))
    {
      NamedSame(fs, g, p);
    }
  }

  lemma CloseInv(fs: FS, o: nat)
    requires Inv(fs) && o in fs.open && o != FREE_MAP_SECTOR
    ensures Inv(InodeClose(fs, o))
  {
    assert fs.open[o].cnt > 0;
    hide OwnInv, DirInv, InodeClose;
    if fs.open[o].cnt == 1 && fs.open[o].removed {
      LastCloseInv(fs, o);
    } else {
      PlainCloseInv(fs, o);
    }
  }

  // ---------------------------------------------------------------- remove

  /** filesys_remove() before its final close: the name is gone, the inode is open and marked. */
  function Unlinked(fs: FS, i: nat): FS
    requires i < |fs.dir| && fs.dir[i].Used?
  {
    var o := fs.dir[i].sector;
    var f := InodeOpen(fs, o).(dir := fs.dir[i := Free]);
    f.(open := f.open[o := f.open[o].(removed := true)])
  }

  lemma UnlinkedNames(fs: FS, i: nat, p: nat)
    requires DirInv(fs) && i < |fs.dir| && fs.dir[i].Used?
    ensures Named(Unlinked(fs, i), p) <==> Named(fs, p) && p != fs.dir[i].sector
  {
    var g := Unlinked(fs, i);
    assert g.dir == fs.dir[i := Free];
    if Named(g, p) {
      var j :| 0 <= j < |g.dir| && g.dir[j].Used? && g.dir[j].sector == p;
      assert fs.dir[j].Used? && fs.dir[j].sector == p;
    }
    if Named(fs, p) && p != fs.dir[i].sector {
      var j :| 0 <= j < |fs.dir| && fs.dir[j].Used? && fs.dir[j].sector == p;
      assert g.dir[j].Used? && g.dir[j].sector == p;
    }
  }

  lemma UnlinkedInv(fs: FS, i: nat)
    requires Inv(fs) && i < |fs.dir| && fs.dir[i].Used?
    ensures Inv(Unlinked(fs, i)) && fs.dir[i].sector in Unlinked(fs, i).open
  {
    var g := Unlinked(fs, i);
    var o := fs.dir[i].sector;
    assert Named(fs, o);
    assert g.blocks == fs.blocks && g.used == fs.used;
    forall p: nat | Owner(g, p) ensures Kept(fs, g, p) {
      UnlinkedNames(fs, i, p);
      KeptSame(fs, g, p);
    }
    OwnFrame(fs, g);
    hide OwnInv, Owner;
    forall p | p in g.open
      ensures g.open[p].cnt > 0 && g.open[p].data == HeaderAt(g, p) && (g.open[p].removed <==> p >= 2 && !Named(g, p))
    {
      UnlinkedNames(fs, i, p);
    }
  }

  lemma RemoveInv(fs: FS, name: string)
    requires Inv(fs)
    ensures Inv(Remove(fs, name).0)
  {
    hide OwnInv, OpenInv, InodeClose;
    var r := Lookup(fs.dir, name);
    if r.Some? {
      UnlinkedInv(fs, r.value);
      CloseInv(Unlinked(fs, r.value), fs.dir[r.value].sector);
    }
  }

  // ---------------------------------------------------------------- create

  /** A new inode with its extent has been laid out in sectors that were free. */
  ghost predicate Grown(fs: FS, g: FS, sector: nat, h: Header) {
    && |g.used| == |g.blocks| == |fs.blocks| == |fs.used| && g.dir == fs.dir && g.open == fs.open
    && sector < |fs.used| && h.start + Sectors(h.length) <= |fs.used|
    && !(h.start <= sector < h.start + Sectors(h.length))
    && (forall x: nat :: InFoot(h, sector, x) ==> !fs.used[x])
    && (forall x: nat :: x < |fs.used| ==> (g.used[x] <==> fs.used[x] || InFoot(h, sector, x)))
    && (forall x: nat :: x < |fs.blocks| && !InFoot(h, sector, x) ==> g.blocks[x] == fs.blocks[x])
    && g.blocks[sector] == Inode(h)
  }

  lemma InodeCreateGrows(fs: FS, sector: nat, size: nat, start: nat)
    requires |fs.used| == |fs.blocks| && sector < |fs.used| && !fs.used[sector]
    requires Scan(fs.used[sector := true], 0, Sectors(size), false) == Some(start)
    ensures var g := InodeCreate(fs.(used := fs.used[sector := true]), sector, size);
      g.Some? && Grown(fs, g.value, sector, Header(start, size))
  {
    hide Scan;
    var n := Sectors(size);
    var u := fs.used[sector := true];
    ScanIsFree(u, n, start);
    hide Sectors;
    var g := InodeCreate(fs.(used := u), sector, size).value;
    assert g.used == Marked(u, start, n, true);
    assert forall x: nat :: start <= x < start + n ==> x != sector && !fs.used[x] by {
      forall x: nat | start <= x < start + n ensures x != sector && !fs.used[x] {
        assert !u[x];
      }
    }
  }

  lemma CreateGrows(fs: FS, size: nat)
    requires |fs.used| == |fs.blocks| && Allocate(fs, 1).Some?
    ensures var (f, sector) := Allocate(fs, 1).value;
      && sector < |fs.used| && !fs.used[sector]
      && f == fs.(used := fs.used[sector := true])
      && (InodeCreate(f, sector, size).Some? ==>
            exists start: nat :: Grown(fs, InodeCreate(f, sector, size).value, sector, Header(start, size)))
  {
    var (f, sector) := Allocate(fs, 1).value;
    ScanIsFree(fs.used, 1, sector);
    assert f.used == fs.used[sector := true];
    hide Scan, Grown;
    if InodeCreate(f, sector, size).Some? {
      InodeCreateGrows(fs, sector, size, Scan(f.used, 0, Sectors(size), false).value);
    }
  }

  /** New sectors belong to no owner, so every owner is kept. */
  lemma GrownKeeps(fs: FS, g: FS, sector: nat, h: Header, o: nat)
    requires OwnInv(fs) && Grown(fs, g, sector, h) && Owner(fs, o)
    ensures Kept(fs, g, o) && o != sector && HeaderAt(g, o) == HeaderAt(fs, o)
    ensures forall x: nat :: !(InFoot(HeaderAt(fs, o), o, x) && InFoot(h, sector, x))
  {
    assert Good(fs, o);
    assert InFoot(HeaderAt(fs, o), o, o);
    assert !InFoot(h, sector, o);
    assert InFoot(h, sector, sector);
  }

  lemma AddedNames(fs: FS, name: string, sector: nat, p: nat)
    requires DirAdd(fs.dir, name, sector).Some?
    ensures Named(fs.(dir := DirAdd(fs.dir, name, sector).value), p) <==> Named(fs, p) || p == sector
  {
    var i := FreeSlot(fs.dir, 0).value;
    var g := fs.(dir := fs.dir[i := Used(name, sector)]);
    if Named(g, p) && p != sector {
      var j :| 0 <= j < |g.dir| && g.dir[j].Used? && g.dir[j].sector == p;
      assert fs.dir[j].Used? && fs.dir[j].sector == p;
    }
    if Named(fs, p) {
      var j :| 0 <= j < |fs.dir| && fs.dir[j].Used? && fs.dir[j].sector == p;
      assert g.dir[j].Used? && g.dir[j].sector == p;
    }
    assert g.dir[i].Used? && g.dir[i].sector == sector;
  }

  /** The new file gets its name. */
  lemma LinkedOwn(fs: FS, g: FS, sector: nat, h: Header, name: string)
    requires OwnInv(fs) && Grown(fs, g, sector, h) && DirAdd(g.dir, name, sector).Some?
    ensures OwnInv(g.(dir := DirAdd(g.dir, name, sector).value))
  {
    var k := g.(dir := DirAdd(g.dir, name, sector).value);
    forall o: nat | Owner(k, o)
      ensures o == sector || Owner(fs, o)
      ensures Good(k, o) && HeaderAt(k, o) == (if o == sector then h else HeaderAt(fs, o))
    {
      AddedNames(g, name, sector, o);
      NamedSame(fs, g, o);
      if o != sector {
        GrownKeeps(fs, g, sector, h, o);
        assert Good(fs, o);
      }
    }
    forall o: nat, p: nat | Owner(k, o) && Owner(k, p) && o != p ensures Apart(k, o, p) {
      if o == sector {
        GrownKeeps(fs, g, sector, h, p);
      } else if p == sector {
        GrownKeeps(fs, g, sector, h, o);
      } else {
        assert Apart(fs, o, p);
      }
    }
  }

  lemma LinkedRest(fs: FS, g: FS, sector: nat, h: Header, name: string)
    requires Inv(fs) && Grown(fs, g, sector, h) && DirAdd(g.dir, name, sector).Some?
    ensures var k := g.(dir := DirAdd(g.dir, name, sector).value); DirInv(k) && OpenInv(k)
  {
    var k := g.(dir := DirAdd(g.dir, name, sector).value);
    assert sector >= 2 by {
      GrownKeeps(fs, g, sector, h, 0);
      GrownKeeps(fs, g, sector, h, 1);
    }
    forall i | 0 <= i < |fs.dir| && fs.dir[i].Used? ensures fs.dir[i].sector != sector {
      assert Named(fs, fs.dir[i].sector);
      GrownKeeps(fs, g, sector, h, fs.dir[i].sector);
    }
    forall p | p in k.open
      ensures k.open[p].cnt > 0 && k.open[p].data == HeaderAt(k, p) && (k.open[p].removed <==> p >= 2 && !Named(k, p))
    {
      GrownKeeps(fs, g, sector, h, p);
      AddedNames(g, name, sector, p);
      NamedSame(fs, g, p);
    }
  }

  /** The new file does not get its name: its extent stays marked, its inode sector is free again. */
  lemma UnlinkedCreate(fs: FS, g: FS, sector: nat, h: Header)
    requires Inv(fs) && Grown(fs, g, sector, h)
    ensures Inv(Release(g, sector, 1))
  {
    var k := Release(g, sector, 1);
    forall o: nat | Owner(k, o) ensures Kept(fs, k, o) {
      NamedSame(fs, k, o);
      GrownKeeps(fs, g, sector, h, o);
    }
    OwnFrame(fs, k);
    forall p | p in k.open
      ensures k.open[p].cnt > 0 && k.open[p].data == HeaderAt(k, p) && (k.open[p].removed <==> p >= 2 && !Named(k, p))
    {
      GrownKeeps(fs, g, sector, h, p);
      NamedSame(fs, k, p);
    }
  }

  lemma ReleaseUndoes(fs: FS, sector: nat)
    requires sector < |fs.used| && !fs.used[sector]
    ensures Release(fs.(used := fs.used[sector := true]), sector, 1) == fs
  {
    assert Marked(fs.used[sector := true], sector, 1, false) == fs.used;
  }

  /** The reserved sectors are never allocated. */
  lemma NotReserved(fs: FS, sector: nat)
    requires OwnInv(fs) && sector < |fs.used| && !fs.used[sector]
    ensures sector >= 2
  {
    if sector < 2 {
      FreeIsUnowned(fs, sector, sector);
    }
  }

  lemma CreateInv(fs: FS, name: string, size: nat)
    requires Inv(fs)
    ensures Inv(Create(fs, name, size).0)
  {
    if Allocate(fs, 1).Some? {
      CreateGrows(fs, size);
      var (f, sector) := Allocate(fs, 1).value;
      NotReserved(fs, sector);
      hide Inv, Allocate, Release, DirAdd, Grown;
      var m := InodeCreate(f, sector, size);
      if m.None? {
        ReleaseUndoes(fs, sector);
      } else {
        var start :| Grown(fs, m.value, sector, Header(start, size));
        GrownLink(fs, m.value, sector, Header(start, size), name);
      }
    }
  }

  lemma GrownLink(fs: FS, g: FS, sector: nat, h: Header, name: string)
    requires Inv(fs) && Grown(fs, g, sector, h)
    ensures Inv(match DirAdd(g.dir, name, sector)
                case None => Release(g, sector, 1)
                case Some(d) => g.(dir := d))
  {
    if DirAdd(g.dir, name, sector).Some? {
      LinkedOwn(fs, g, sector, h, name);
      LinkedRest(fs, g, sector, h, name);
    } else {
      UnlinkedCreate(fs, g, sector, h);
    }
  }

  // ---------------------------------------------------------------- write

  /** A data sector is nobody's inode. */
  lemma DataIsNoInode(fs: FS, o: nat, x: nat, p: nat)
    requires OwnInv(fs) && Owner(fs, o) && Owner(fs, p)
    requires var h := HeaderAt(fs, o); h.start <= x < h.start + Sectors(h.length)
    ensures p != x
  {
    assert Good(fs, o);
    if p != o {
      assert Apart(fs, o, p);
      assert InFoot(HeaderAt(fs, p), p, p);
    }
  }

  lemma WriteInv(fs: FS, o: nat, k: nat, bytes: seq<Byte>)
    requires Inv(fs)
    ensures Inv(WriteSector(fs, o, k, bytes))
  {
    var g := WriteSector(fs, o, k, bytes);
    if g != fs {
      var x := fs.open[o].data.start + k;
      forall p: nat | Owner(fs, p) ensures p != x && Owner(g, p) {
        DataIsNoInode(fs, o, x, p);
        NamedSame(fs, g, p);
      }
      forall p: nat | Owner(g, p) ensures Kept(fs, g, p) {
        NamedSame(fs, g, p);
        assert Good(fs, p);
      }
      OwnFrame(fs, g);
      forall p | p in g.open
        ensures g.open[p].cnt > 0 && g.open[p].data == HeaderAt(g, p) && (g.open[p].removed <==> p >= 2 && !Named(g, p))
      {
        NamedSame(fs, g, p);
        assert Owner(fs, p);
      }
    }
  }

  // ---------------------------------------------------------------- every run

  lemma OpenByNameInv(fs: FS, name: string)
    requires Inv(fs)
    ensures Inv(Open(fs, name).0)
  {
    var r := Lookup(fs.dir, name);
    if r.Some? {
      assert Named(fs, fs.dir[r.value].sector);
      InodeOpenInv(fs, fs.dir[r.value].sector);
    }
  }

  lemma ReopenInv(fs: FS, o: nat)
    requires Inv(fs) && o in fs.open
    ensures Inv(InodeOpen(fs, o))
  {
    InodeOpenInv(fs, o);
  }

  lemma NextInv(fs: FS, c: Call)
    requires Inv(fs)
    ensures Inv(Next(fs, c))
  {
    hide Inv;
    if Allowed(fs, c) {
      match c
      case CCreate(name, size) => CreateInv(fs, name, size);
      case COpen(name) => OpenByNameInv(fs, name);
      case CRemove(name) => RemoveInv(fs, name);
      case CReopen(o) => ReopenInv(fs, o);
      case CClose(o) => CloseInv(fs, o);
      case CWrite(o, k, bytes) => WriteInv(fs, o, k, bytes);
    }
  }

  lemma FormatInv(n: nat)
    requires n >= 2 && Format(n).Some?
    ensures Inv(Format(n).value)
  {
    var used := Marked(seq(n, _ => false), 0, 2, true);
    var blank := FS(used, seq(n, _ => Data(ZeroSector())), seq(16, _ => Free), map[]);
    var a := Scan(used, 0, Sectors(4 * ((n + 31) / 32)), false).value;
    var f := InodeCreate(blank, FREE_MAP_SECTOR, 4 * ((n + 31) / 32)).value;
    ScanIsFree(used, Sectors(4 * ((n + 31) / 32)), a);
    var b := Scan(f.used, 0, Sectors(16 * 20), false).value;
    ScanIsFree(f.used, Sectors(16 * 20), b);
    var g := InodeCreate(f, ROOT_DIR_SECTOR, 16 * 20).value;
    FormatLayout(n, a, b, f, g);
    InitialInv(g, a, 4 * ((n + 31) / 32), b);
  }

  /** What formatting leaves: two inodes with extents of sectors that were free. */
  ghost predicate Layout(g: FS, a: nat, alen: nat, b: nat) {
    && |g.used| == |g.blocks| >= 2 && g.open == map[] && (forall i :: 0 <= i < |g.dir| ==> g.dir[i].Free?)
    && g.blocks[0] == Inode(Header(a, alen)) && g.blocks[1] == Inode(Header(b, 320))
    && a + Sectors(alen) <= |g.used| && b + 1 <= |g.used| && (Sectors(alen) > 0 ==> a >= 2) && b >= 2
    && !(a <= b < a + Sectors(alen))
    && g.used[0] && g.used[1] && g.used[b] && (forall x: nat :: a <= x < a + Sectors(alen) ==> g.used[x])
  }

  lemma FormatLayout(n: nat, a: nat, b: nat, f: FS, g: FS)
    requires n >= 2
    requires var used := Marked(seq(n, _ => false), 0, 2, true);
      var blank := FS(used, seq(n, _ => Data(ZeroSector())), seq(16, _ => Free), map[]);
      var len := 4 * ((n + 31) / 32);
      && a + Sectors(len) <= n && (forall x: nat :: a <= x < a + Sectors(len) ==> !used[x])
      && f == blank.(used := Marked(used, a, Sectors(len), true),
                     blocks := Filled(blank.blocks[0 := Inode(Header(a, len))], a, Sectors(len)))
      && b + Sectors(320) <= n && (forall x: nat :: b <= x < b + Sectors(320) ==> !f.used[x])
      && g == f.(used := Marked(f.used, b, Sectors(320), true),
                 blocks := Filled(f.blocks[1 := Inode(Header(b, 320))], b, Sectors(320)))
    ensures Layout(g, a, 4 * ((n + 31) / 32), b)
  {
    var len := 4 * ((n + 31) / 32);
    assert Sectors(320) == 1;
    assert !f.used[b];
    if Sectors(len) > 0 {
      var used := Marked(seq(n, _ => false), 0, 2, true);
      assert !used[a];
    }
  }

  lemma InitialInv(g: FS, a: nat, alen: nat, b: nat)
    requires Layout(g, a, alen, b)
    ensures Inv(InodeOpen(g, FREE_MAP_SECTOR))
  {
    var k := InodeOpen(g, FREE_MAP_SECTOR);
    assert forall o: nat :: !Named(k, o);
    assert Sectors(320) == 1;
    assert Good(k, 0) && Good(k, 1) && Apart(k, 0, 1) && Apart(k, 1, 0);
  }

  /** After formatting a device of any size and any calls, the invariant holds. */
  lemma {:induction false} RunInv(n: nat, calls: seq<Call>)
    requires n >= 2 && Format(n).Some?
    ensures Inv(Run(Format(n).value, calls))
    decreases |calls|
  {
    if calls == [] {
      FormatInv(n);
    } else {
      RunInv(n, calls[..|calls| - 1]);
      NextInv(Run(Format(n).value, calls[..|calls| - 1]), calls[|calls| - 1]);
    }
  }

  // ---------------------------------------------------------------- what the invariant means

  /** In every run: the sectors of two different files, with a name or only open, of the root
      directory and of the free map never overlap, and none of them is free. */
  lemma SectorsDisjoint(n: nat, calls: seq<Call>, o: nat, p: nat, x: nat)
    requires n >= 2 && Format(n).Some?
    ensures var fs := Run(Format(n).value, calls);
      Owner(fs, o) && InFoot(HeaderAt(fs, o), o, x) ==>
        x < |fs.used| && fs.used[x] && (Owner(fs, p) && InFoot(HeaderAt(fs, p), p, x) ==> o == p)
  {
    RunInv(n, calls);
    var fs := Run(Format(n).value, calls);
    if Owner(fs, o) {
      assert Good(fs, o);
      if Owner(fs, p) && o != p {
        assert Apart(fs, o, p);
      }
    }
  }

  /** How many of n openers of this inode the calls leave: a reopening adds one, a close takes one. */
  function Openers(n: int, calls: seq<Call>, o: nat): int
    decreases |calls|
  {
    if calls == [] then n
    else
      var c := calls[|calls| - 1];
      Openers(n, calls[..|calls| - 1], o) + (if c == CReopen(o) then 1 else if c == CClose(o) then -1 else 0)
  }

  /** The inode never loses its last opener during the calls. */
  ghost predicate StaysOpen(n: int, calls: seq<Call>, o: nat) {
    forall i: nat :: i <= |calls| ==> Openers(n, calls[..i], o) > 0
  }

  /** What the calls leave in sector x of the extent h of inode o, where b was: only writes through a handle
      of o change it. */
  function Stored(b: Block, h: Header, o: nat, calls: seq<Call>, x: nat): Block
    decreases |calls|
  {
    if calls == [] then b
    else match calls[|calls| - 1]
      case CWrite(p, k, bytes) =>
        if p == o && k < Sectors(h.length) && h.start + k == x then Data(bytes)
        else Stored(b, h, o, calls[..|calls| - 1], x)
      case _ => Stored(b, h, o, calls[..|calls| - 1], x)
  }

  /** A call made through this handle. */
  predicate Through(c: Call, o: nat) {
    (c.CReopen? || c.CClose? || c.CWrite?) && c.handle == o
  }

  /** File o, removed while open, is as it was: open, without a name, its inode and data intact and
      its sectors marked. */
  ghost predicate Survives(fs: FS, g: FS, o: nat) {
    && o in fs.open && o in g.open && g.open[o] == fs.open[o] && |g.used| == |g.blocks| == |fs.blocks|
    && forall x: nat :: InFoot(fs.open[o].data, o, x) && x < |fs.blocks| ==> g.used[x] && g.blocks[x] == fs.blocks[x]
  }

  lemma SurvivesNext(fs: FS, c: Call, o: nat)
    requires Inv(fs) && o in fs.open && fs.open[o].removed && !Through(c, o)
    ensures Survives(fs, Next(fs, c), o)
  {
    assert Good(fs, o);
    if Allowed(fs, c) {
      match c
      case CCreate(name, size) => SurvivesCreate(fs, name, size, o);
      case COpen(name) =>
        if Lookup(fs.dir, name).Some? {
          assert Named(fs, fs.dir[Lookup(fs.dir, name).value].sector);
        }
      case CRemove(name) => SurvivesRemove(fs, name, o);
      case CReopen(p) => assert p != o;
      case CClose(p) => SurvivesClose(fs, p, o);
      case CWrite(p, k, bytes) => assert Apart(fs, o, p);
    }
  }

  lemma SurvivesClose(fs: FS, p: nat, o: nat)
    requires Inv(fs) && o in fs.open && p in fs.open && p != o && fs.open[p].cnt > 0
    ensures Survives(fs, InodeClose(fs, p), o)
  {
    assert Good(fs, o) && Apart(fs, o, p);
    if fs.open[p].cnt == 1 && fs.open[p].removed {
      LastClose(fs, p);
    }
  }

  lemma SurvivesRemove(fs: FS, name: string, o: nat)
    requires Inv(fs) && o in fs.open && fs.open[o].removed
    ensures Survives(fs, Remove(fs, name).0, o)
  {
    var r := Lookup(fs.dir, name);
    assert Good(fs, o);
    if r.Some? {
      var p := fs.dir[r.value].sector;
      assert Named(fs, p);
      UnlinkedInv(fs, r.value);
      var g := Unlinked(fs, r.value);
      assert g.open[o] == fs.open[o] && g.open[p].cnt > 0;
      hide Inv, InodeClose;
      SurvivesClose(g, p, o);
    }
  }

  lemma SurvivesCreate(fs: FS, name: string, size: nat, o: nat)
    requires Inv(fs) && o in fs.open
    ensures Survives(fs, Create(fs, name, size).0, o)
  {
    assert Good(fs, o);
    if Allocate(fs, 1).Some? {
      CreateGrows(fs, size);
      var (f, sector) := Allocate(fs, 1).value;
      NotReserved(fs, sector);
      var m := InodeCreate(f, sector, size);
      hide Inv, Allocate, Release, DirAdd, Grown;
      if m.None? {
        ReleaseUndoes(fs, sector);
      } else {
        var start :| Grown(fs, m.value, sector, Header(start, size));
        SurvivesGrown(fs, m.value, sector, Header(start, size), o);
      }
    }
  }

  lemma SurvivesGrown(fs: FS, g: FS, sector: nat, h: Header, o: nat)
    requires Inv(fs) && o in fs.open && Grown(fs, g, sector, h)
    ensures g.dir == fs.dir && Survives(fs, Release(g, sector, 1), o)
    ensures forall d :: Survives(fs, g.(dir := d), o)
  {
    assert Good(fs, o);
    GrownKeeps(fs, g, sector, h, o);
  }

  /** File o, removed while open, lives on after the calls: it has the openers that they leave it, its sectors
      are marked, and they hold what they held but for writes through handles of o. */
  ghost predicate LivesOn(fs: FS, g: FS, calls: seq<Call>, o: nat) {
    && o in fs.open && o in g.open && g.open[o].cnt == Openers(fs.open[o].cnt, calls, o)
    && g.open[o].removed == fs.open[o].removed && g.open[o].data == fs.open[o].data
    && |g.used| == |g.blocks| == |fs.blocks|
    && forall x: nat :: InFoot(fs.open[o].data, o, x) && x < |fs.blocks| ==>
         g.used[x] && g.blocks[x] == Stored(fs.blocks[x], fs.open[o].data, o, calls, x)
  }

  lemma LivesOnOther(fs: FS, g: FS, calls: seq<Call>, o: nat)
    requires calls != [] && Inv(g) && !Through(calls[|calls| - 1], o)
    requires LivesOn(fs, g, calls[..|calls| - 1], o) && g.open[o].removed
    ensures LivesOn(fs, Next(g, calls[|calls| - 1]), calls, o)
  {
    SurvivesNext(g, calls[|calls| - 1], o);
    hide Inv, Next;
  }

  lemma LivesOnWrite(fs: FS, g: FS, calls: seq<Call>, o: nat)
    requires calls != [] && calls[|calls| - 1].CWrite? && calls[|calls| - 1].handle == o
    requires Inv(g) && LivesOn(fs, g, calls[..|calls| - 1], o) && g.open[o].removed
    ensures LivesOn(fs, Next(g, calls[|calls| - 1]), calls, o)
  {
    assert Good(g, o);
    assert g.open[o].data == fs.open[o].data;
    assert o != FREE_MAP_SECTOR;
    var k, bytes := calls[|calls| - 1].k, calls[|calls| - 1].bytes;
    assert Next(g, calls[|calls| - 1]) == WriteSector(g, o, k, bytes);
  }

  lemma LivesOnReopen(fs: FS, g: FS, calls: seq<Call>, o: nat)
    requires calls != [] && calls[|calls| - 1] == CReopen(o)
    requires Inv(g) && LivesOn(fs, g, calls[..|calls| - 1], o) && g.open[o].removed
    ensures LivesOn(fs, Next(g, calls[|calls| - 1]), calls, o)
  {
    assert o != FREE_MAP_SECTOR;
  }

  lemma LivesOnClose(fs: FS, g: FS, calls: seq<Call>, o: nat)
    requires calls != [] && calls[|calls| - 1] == CClose(o)
    requires Inv(g) && LivesOn(fs, g, calls[..|calls| - 1], o) && g.open[o].removed && g.open[o].cnt > 1
    ensures LivesOn(fs, Next(g, calls[|calls| - 1]), calls, o)
  {
    assert o != FREE_MAP_SECTOR;
  }

  lemma StaysOpenPrefix(n: int, calls: seq<Call>, i: nat, o: nat)
    requires i <= |calls| && StaysOpen(n, calls, o)
    ensures StaysOpen(n, calls[..i], o) && Openers(n, calls[..i], o) > 0
  {
    forall j: nat | j <= i ensures Openers(n, calls[..i][..j], o) > 0 {
      assert calls[..i][..j] == calls[..j];
    }
  }

  /** In every run that never leaves it without an opener, a file that was removed while open keeps its inode,
      its sectors and its data: they are neither reused nor altered by others, while its own openers go on
      reading, writing, reopening and closing it. */
  lemma {:induction false} RemovedSurvives(fs: FS, calls: seq<Call>, o: nat)
    requires Inv(fs) && o in fs.open && fs.open[o].removed && StaysOpen(fs.open[o].cnt, calls, o)
    ensures Inv(Run(fs, calls)) && LivesOn(fs, Run(fs, calls), calls, o)
    decreases |calls|
  {
    if calls == [] {
      assert Good(fs, o);
    } else {
      var p, c := calls[..|calls| - 1], calls[|calls| - 1];
      var g := Run(fs, p);
      StaysOpenPrefix(fs.open[o].cnt, calls, |calls| - 1, o);
      StaysOpenPrefix(fs.open[o].cnt, calls, |calls|, o);
      assert calls[..|calls|] == calls;
      RemovedSurvives(fs, p, o);
      NextInv(g, c);
      hide Inv, Next, Stored, StaysOpen;
      if c == CClose(o) {
        LivesOnClose(fs, g, calls, o);
      } else if c == CReopen(o) {
        LivesOnReopen(fs, g, calls, o);
      } else if Through(c, o) {
        LivesOnWrite(fs, g, calls, o);
      } else {
        LivesOnOther(fs, g, calls, o);
      }
    }
  }

  /** The run up to and with the close by the last of its openers: until then the sectors of a removed file
      are marked, and this close passes both assertions, frees exactly them, and changes nothing else. */
  lemma LastHandleReleases(fs: FS, calls: seq<Call>, o: nat)
    requires Inv(fs) && o in fs.open && fs.open[o].removed
    requires calls != [] && StaysOpen(fs.open[o].cnt, calls[..|calls| - 1], o) && Openers(fs.open[o].cnt, calls, o) == 0
    ensures var g := Run(fs, calls[..|calls| - 1]); var r := Run(fs, calls); var h := fs.open[o].data;
      && o in g.open && o !in r.open && |r.used| == |g.used|
      && CanRelease(g, o, 1) && CanRelease(Release(g, o, 1), h.start, Sectors(h.length))
      && (forall x: nat :: x < |g.used| ==> r.used[x] == (g.used[x] && !InFoot(h, o, x)))
      && r.blocks == g.blocks && r.dir == g.dir && r.open == g.open - {o}
    ensures forall i: nat, x: nat :: i < |calls| && InFoot(fs.open[o].data, o, x) ==>
              x < |Run(fs, calls[..i]).used| && Run(fs, calls[..i]).used[x]
  {
    var h, p := fs.open[o].data, calls[..|calls| - 1];
    var g := Run(fs, p);
    StaysOpenPrefix(fs.open[o].cnt, p, |p|, o);
    assert p[..|p|] == p;
    assert calls[|calls| - 1] == CClose(o);
    RemovedSurvives(fs, p, o);
    LastClose(g, o);
    assert Run(fs, calls) == Next(g, CClose(o));
    assert o != FREE_MAP_SECTOR;
    assert Good(fs, o);
    forall i: nat, x: nat | i < |calls| && InFoot(h, o, x)
      ensures x < |Run(fs, calls[..i]).used| && Run(fs, calls[..i]).used[x]
    {
      assert p[..i] == calls[..i];
      StaysOpenPrefix(fs.open[o].cnt, p, i, o);
      RemovedSurvives(fs, calls[..i], o);
    }
  }

  // ---------------------------------------------------------------- nothing leaks, with one exception

  /** Every marked sector has an owner. */
  ghost predicate Exact(fs: FS) {
    forall x: nat :: x < |fs.used| && fs.used[x] ==> HasOwner(fs, x)
  }

  ghost predicate HasOwner(fs: FS, x: nat) {
    exists o: nat :: Owner(fs, o) && InFoot(HeaderAt(fs, o), o, x)
  }

  /** filesys_create() lays out an inode and a non-empty extent and is then refused by the directory. */
  predicate Leaks(fs: FS, name: string, size: nat)
    requires |fs.used| == |fs.blocks|
  {
    && Allocate(fs, 1).Some?
    && var (f, sector) := Allocate(fs, 1).value;
       && sector < |f.blocks|
       && InodeCreate(f, sector, size).Some?
       && DirAdd(fs.dir, name, sector) == None
       && Sectors(size) > 0
  }

  /** Owners of fs that are owners of g with the same inode go on owning their sectors. */
  lemma OwnerMoves(fs: FS, g: FS, x: nat)
    requires HasOwner(fs, x)
    requires forall o: nat :: Owner(fs, o) && InFoot(HeaderAt(fs, o), o, x) ==> Owner(g, o) && HeaderAt(g, o) == HeaderAt(fs, o)
    ensures HasOwner(g, x)
  {
    var o: nat :| Owner(fs, o) && InFoot(HeaderAt(fs, o), o, x);
    assert Owner(g, o) && InFoot(HeaderAt(g, o), o, x);
  }

  lemma ExactLinked(fs: FS, g: FS, sector: nat, h: Header, name: string)
    requires Inv(fs) && Exact(fs) && Grown(fs, g, sector, h) && DirAdd(g.dir, name, sector).Some?
    ensures Exact(g.(dir := DirAdd(g.dir, name, sector).value))
  {
    var k := g.(dir := DirAdd(g.dir, name, sector).value);
    forall x: nat | x < |k.used| && k.used[x] ensures HasOwner(k, x) {
      if InFoot(h, sector, x) {
        AddedNames(g, name, sector, sector);
        assert Owner(k, sector) && InFoot(HeaderAt(k, sector), sector, x);
      } else {
        forall o: nat | Owner(fs, o) ensures Owner(k, o) && HeaderAt(k, o) == HeaderAt(fs, o) {
          GrownKeeps(fs, g, sector, h, o);
          AddedNames(g, name, sector, o);
          NamedSame(fs, g, o);
        }
        OwnerMoves(fs, k, x);
      }
    }
  }

  /** Refused by the directory, the call leaves exactly if the extent is empty. */
  lemma ExactUnlinked(fs: FS, g: FS, sector: nat, h: Header)
    requires Inv(fs) && Exact(fs) && Grown(fs, g, sector, h)
    ensures Exact(Release(g, sector, 1)) <==> Sectors(h.length) == 0
  {
    var k := Release(g, sector, 1);
    forall o: nat ensures Owner(k, o) <==> Owner(fs, o) {
      NamedSame(fs, k, o);
    }
    forall o: nat | Owner(fs, o) ensures HeaderAt(k, o) == HeaderAt(fs, o) {
      GrownKeeps(fs, g, sector, h, o);
    }
    if Sectors(h.length) == 0 {
      forall x: nat | x < |k.used| && k.used[x] ensures HasOwner(k, x) {
        OwnerMoves(fs, k, x);
      }
    } else {
      var x := h.start;
      assert InFoot(h, sector, x) && k.used[x];
      forall o: nat | Owner(k, o) ensures !InFoot(HeaderAt(k, o), o, x) {
        GrownKeeps(fs, g, sector, h, o);
      }
      assert !HasOwner(k, x);
    }
  }

  /** filesys_create() keeps the free map exact if and only if it is not refused by the directory
      after laying out a non-empty extent. */
  lemma CreateExact(fs: FS, name: string, size: nat)
    requires Inv(fs) && Exact(fs)
    ensures Exact(Create(fs, name, size).0) <==> !Leaks(fs, name, size)
  {
    if Allocate(fs, 1).Some? {
      CreateGrows(fs, size);
      var (f, sector) := Allocate(fs, 1).value;
      NotReserved(fs, sector);
      var m := InodeCreate(f, sector, size);
      hide Inv, Exact, Allocate, DirAdd;
      if m.None? {
        ReleaseUndoes(fs, sector);
      } else {
        var start :| Grown(fs, m.value, sector, Header(start, size));
        assert m.value.dir == fs.dir;
        if DirAdd(fs.dir, name, sector).Some? {
          ExactLinked(fs, m.value, sector, Header(start, size), name);
        } else {
          ExactUnlinked(fs, m.value, sector, Header(start, size));
        }
      }
    }
  }

  lemma CloseExact(fs: FS, o: nat)
    requires Inv(fs) && Exact(fs) && o in fs.open && o != FREE_MAP_SECTOR
    ensures fs.open[o].cnt > 0 && Exact(InodeClose(fs, o))
  {
    var g := InodeClose(fs, o);
    var last := fs.open[o].cnt == 1 && fs.open[o].removed;
    if last {
      LastClose(fs, o);
    }
    hide InodeClose;
    forall x: nat | x < |g.used| && g.used[x] ensures HasOwner(g, x) {
      assert HasOwner(fs, x) by {
        assert fs.used[x];
      }
      forall p: nat | Owner(fs, p) && InFoot(HeaderAt(fs, p), p, x) ensures Owner(g, p) {
        NamedSame(fs, g, p);
        CloseKeeps(fs, o, p);
      }
      OwnerMoves(fs, g, x);
    }
  }

  lemma CloseKeeps(fs: FS, o: nat, p: nat)
    requires OpenInv(fs) && o in fs.open && fs.open[o].cnt > 0 && Owner(fs, p)
    ensures InodeClose(fs, o).blocks == fs.blocks && InodeClose(fs, o).dir == fs.dir
    ensures fs.open[o].cnt == 1 && fs.open[o].removed ==> |InodeClose(fs, o).used| == |fs.used|
    ensures !(fs.open[o].cnt == 1 && fs.open[o].removed) ==> InodeClose(fs, o).used == fs.used
    ensures p != o || !(fs.open[o].cnt == 1 && fs.open[o].removed) ==> Owner(InodeClose(fs, o), p)
  {
    NamedSame(fs, InodeClose(fs, o), p);
  }

  lemma RemoveExact(fs: FS, name: string)
    requires Inv(fs) && Exact(fs)
    ensures Exact(Remove(fs, name).0)
  {
    var r := Lookup(fs.dir, name);
    if r.Some? {
      var g := Unlinked(fs, r.value);
      UnlinkedInv(fs, r.value);
      forall x: nat | x < |g.used| && g.used[x] ensures HasOwner(g, x) {
        forall o: nat | Owner(fs, o) ensures Owner(g, o) && HeaderAt(g, o) == HeaderAt(fs, o) {
          UnlinkedNames(fs, r.value, o);
        }
        OwnerMoves(fs, g, x);
      }
      hide Inv, Exact, InodeClose;
      CloseExact(g, fs.dir[r.value].sector);
    }
  }

  lemma OpenExact(fs: FS, name: string)
    requires Inv(fs)
    ensures Exact(Open(fs, name).0) <==> Exact(fs)
  {
    var g := Open(fs, name).0;
    forall o: nat ensures (Owner(g, o) <==> Owner(fs, o)) && HeaderAt(g, o) == HeaderAt(fs, o) {
      NamedSame(fs, g, o);
    }
    SameOwners(fs, g);
  }

  lemma SameOwners(fs: FS, g: FS)
    requires g.used == fs.used
    requires forall o: nat :: Owner(fs, o) <==> Owner(g, o)
    requires forall o: nat :: Owner(fs, o) ==> HeaderAt(g, o) == HeaderAt(fs, o)
    ensures Exact(g) <==> Exact(fs)
    ensures forall x: nat :: HasOwner(g, x) <==> HasOwner(fs, x)
  {
    forall x: nat ensures HasOwner(g, x) <==> HasOwner(fs, x) {
      if HasOwner(fs, x) {
        OwnerMoves(fs, g, x);
      }
      if HasOwner(g, x) {
        OwnerMoves(g, fs, x);
      }
    }
  }

  lemma WriteOwners(fs: FS, o: nat, k: nat, bytes: seq<Byte>)
    requires Inv(fs)
    ensures var g := WriteSector(fs, o, k, bytes);
      g.used == fs.used && (Exact(g) <==> Exact(fs)) && forall x: nat :: HasOwner(g, x) <==> HasOwner(fs, x)
  {
    var g := WriteSector(fs, o, k, bytes);
    forall p: nat
      ensures Owner(fs, p) <==> Owner(g, p)
      ensures Owner(fs, p) ==> HeaderAt(g, p) == HeaderAt(fs, p)
    {
      NamedSame(fs, g, p);
      if Owner(fs, p) && g != fs {
        DataIsNoInode(fs, o, fs.open[o].data.start + k, p);
      }
    }
    SameOwners(fs, g);
  }

  lemma ReopenOwners(fs: FS, o: nat)
    requires o in fs.open
    ensures var g := InodeOpen(fs, o);
      g.used == fs.used && (Exact(g) <==> Exact(fs)) && forall x: nat :: HasOwner(g, x) <==> HasOwner(fs, x)
  {
    var g := InodeOpen(fs, o);
    forall p: nat ensures (Owner(g, p) <==> Owner(fs, p)) && HeaderAt(g, p) == HeaderAt(fs, p) {
      NamedSame(fs, g, p);
    }
    SameOwners(fs, g);
  }

  /** A call that is made and leaks. */
  predicate Leaky(fs: FS, c: Call) {
    c.CCreate? && |fs.used| == |fs.blocks| && Leaks(fs, c.name, c.size)
  }

  lemma NextExact(fs: FS, c: Call)
    requires Inv(fs) && Exact(fs)
    ensures Exact(Next(fs, c)) <==> !Leaky(fs, c)
  {
    assert |fs.used| == |fs.blocks|;
    hide Inv, Exact, Leaks, InodeClose, InodeOpen, Create, Open, Remove, WriteSector;
    if Allowed(fs, c) {
      match c
      case CCreate(name, size) => CreateExact(fs, name, size);
      case COpen(name) => OpenExact(fs, name);
      case CRemove(name) => RemoveExact(fs, name);
      case CReopen(o) => ReopenOwners(fs, o);
      case CClose(o) => CloseExact(fs, o);
      case CWrite(o, k, bytes) => WriteOwners(fs, o, k, bytes);
    }
  }

  // A lost sector, marked and without an owner, stays lost: only an owner's sectors are released and
  // only free ones are handed out.

  ghost predicate Lost(fs: FS, x: nat) {
    x < |fs.used| && fs.used[x] && !HasOwner(fs, x)
  }

  lemma LostStays(fs: FS, g: FS, x: nat)
    requires Lost(fs, x) && x < |g.used| && g.used[x]
    requires forall o: nat :: Owner(g, o) && InFoot(HeaderAt(g, o), o, x) ==> Owner(fs, o) && HeaderAt(g, o) == HeaderAt(fs, o)
    ensures Lost(g, x)
  {
    if HasOwner(g, x) {
      OwnerMoves(g, fs, x);
    }
  }

  lemma LostClose(fs: FS, o: nat, x: nat)
    requires Inv(fs) && o in fs.open && fs.open[o].cnt > 0 && Lost(fs, x)
    ensures Lost(InodeClose(fs, o), x)
  {
    var g := InodeClose(fs, o);
    if fs.open[o].cnt == 1 && fs.open[o].removed {
      LastClose(fs, o);
      assert Owner(fs, o) && !InFoot(HeaderAt(fs, o), o, x);
    }
    assert g.dir == fs.dir && g.blocks == fs.blocks && forall p :: p in g.open ==> p in fs.open;
    assert g.used[x];
    forall p: nat | Owner(g, p) ensures Owner(fs, p) && HeaderAt(g, p) == HeaderAt(fs, p) {
      NamedSame(fs, g, p);
    }
    LostStays(fs, g, x);
  }

  lemma LostRemove(fs: FS, name: string, x: nat)
    requires Inv(fs) && Lost(fs, x)
    ensures Lost(Remove(fs, name).0, x)
  {
    var r := Lookup(fs.dir, name);
    if r.Some? {
      var g := Unlinked(fs, r.value);
      UnlinkedInv(fs, r.value);
      assert Named(fs, fs.dir[r.value].sector);
      forall o: nat | Owner(g, o) ensures Owner(fs, o) && HeaderAt(g, o) == HeaderAt(fs, o) {
        UnlinkedNames(fs, r.value, o);
      }
      LostStays(fs, g, x);
      assert g.open[fs.dir[r.value].sector].cnt > 0;
      hide Inv, Lost, InodeClose;
      LostClose(g, fs.dir[r.value].sector, x);
    }
  }

  lemma LostGrown(fs: FS, g: FS, sector: nat, h: Header, name: string, x: nat)
    requires Inv(fs) && Lost(fs, x) && Grown(fs, g, sector, h)
    ensures Lost(match DirAdd(g.dir, name, sector)
                 case None => Release(g, sector, 1)
                 case Some(d) => g.(dir := d), x)
  {
    var m := DirAdd(g.dir, name, sector);
    var k := if m.Some? then g.(dir := m.value) else Release(g, sector, 1);
    assert !InFoot(h, sector, x);
    assert k.used[x];
    forall o: nat | Owner(k, o) && InFoot(HeaderAt(k, o), o, x) ensures Owner(fs, o) && HeaderAt(k, o) == HeaderAt(fs, o) {
      NamedSame(fs, g, o);
      if m.Some? {
        AddedNames(g, name, sector, o);
      } else {
        NamedSame(fs, k, o);
      }
      assert k.blocks == g.blocks && k.open == fs.open;
      if Owner(fs, o) {
        GrownKeeps(fs, g, sector, h, o);
      }
    }
    LostStays(fs, k, x);
  }

  lemma LostCreate(fs: FS, name: string, size: nat, x: nat)
    requires Inv(fs) && Lost(fs, x)
    ensures Lost(Create(fs, name, size).0, x)
  {
    if Allocate(fs, 1).Some? {
      CreateGrows(fs, size);
      var (f, sector) := Allocate(fs, 1).value;
      NotReserved(fs, sector);
      hide Inv, Allocate, Release, DirAdd, Grown, Lost;
      var m := InodeCreate(f, sector, size);
      if m.None? {
        ReleaseUndoes(fs, sector);
      } else {
        var start :| Grown(fs, m.value, sector, Header(start, size));
        LostGrown(fs, m.value, sector, Header(start, size), name, x);
      }
    }
  }

  lemma LostOpen(fs: FS, name: string, x: nat)
    requires Lost(fs, x)
    ensures Lost(Open(fs, name).0, x)
  {
    var g := Open(fs, name).0;
    var r := Lookup(fs.dir, name);
    if r.Some? {
      assert Named(fs, fs.dir[r.value].sector);
    }
    forall o: nat | Owner(g, o) ensures Owner(fs, o) && HeaderAt(g, o) == HeaderAt(fs, o) {
      NamedSame(fs, g, o);
    }
    LostStays(fs, g, x);
  }

  lemma LostNext(fs: FS, c: Call, x: nat)
    requires Inv(fs) && Lost(fs, x)
    ensures Lost(Next(fs, c), x)
  {
    hide Inv, HasOwner, InodeClose, InodeOpen, Create, Open, Remove, WriteSector;
    if Allowed(fs, c) {
      match c
      case CCreate(name, size) => LostCreate(fs, name, size, x);
      case COpen(name) => LostOpen(fs, name, x);
      case CRemove(name) => LostRemove(fs, name, x);
      case CReopen(o) => ReopenOwners(fs, o);
      case CClose(o) => LostClose(fs, o, x);
      case CWrite(o, k, bytes) => WriteOwners(fs, o, k, bytes);
    }
  }

  lemma InexactNext(fs: FS, c: Call)
    requires Inv(fs) && !Exact(fs)
    ensures !Exact(Next(fs, c))
  {
    var x: nat :| x < |fs.used| && fs.used[x] && !HasOwner(fs, x);
    LostNext(fs, c, x);
  }

  /** Some call of the run leaked, in the state it was made in. */
  predicate EverLeaked(fs: FS, calls: seq<Call>)
    decreases |calls|
  {
    && calls != []
    && var p := calls[..|calls| - 1];
       EverLeaked(fs, p) || Leaky(Run(fs, p), calls[|calls| - 1])
  }

  lemma {:induction false} ExactFrom(fs: FS, calls: seq<Call>)
    requires Inv(fs) && Exact(fs)
    ensures Inv(Run(fs, calls))
    ensures Exact(Run(fs, calls)) <==> !EverLeaked(fs, calls)
    decreases |calls|
  {
    if calls != [] {
      var p, c := calls[..|calls| - 1], calls[|calls| - 1];
      ExactFrom(fs, p);
      var g := Run(fs, p);
      hide Inv, Exact, Leaky, Next;
      NextInv(g, c);
      if Exact(g) {
        NextExact(g, c);
      } else {
        InexactNext(g, c);
      }
    }
  }

  lemma FormatExact(n: nat)
    requires n >= 2 && Format(n).Some?
    ensures Exact(Format(n).value)
  {
    var len := 4 * ((n + 31) / 32);
    var used := Marked(seq(n, _ => false), 0, 2, true);
    var blank := FS(used, seq(n, _ => Data(ZeroSector())), seq(16, _ => Free), map[]);
    var a := Scan(used, 0, Sectors(len), false).value;
    var f := InodeCreate(blank, FREE_MAP_SECTOR, len).value;
    var b := Scan(f.used, 0, Sectors(320), false).value;
    var g := InodeCreate(f, ROOT_DIR_SECTOR, 320).value;
    hide Scan;
    ScanIsFree(used, Sectors(len), a);
    ScanIsFree(f.used, Sectors(320), b);
    FormatLayout(n, a, b, f, g);
    var k := InodeOpen(g, FREE_MAP_SECTOR);
    assert Format(n).value == k;
    assert HeaderAt(k, 0) == Header(a, len) && HeaderAt(k, 1) == Header(b, 320);
    assert Owner(k, 0) && Owner(k, 1);
    forall x: nat | x < |k.used| && k.used[x] ensures HasOwner(k, x) {
      assert InFoot(HeaderAt(k, 0), 0, x) || InFoot(HeaderAt(k, 1), 1, x);
    }
  }

  /** After any run the free map marks exactly the sectors of the live files if and only if no create
      of that run laid out a non-empty extent and was then refused by the directory. */
  lemma RunExact(n: nat, calls: seq<Call>)
    requires n >= 2 && Format(n).Some?
    ensures var fs := Format(n).value; Exact(Run(fs, calls)) <==> !EverLeaked(fs, calls)
  {
    FormatInv(n);
    FormatExact(n);
    ExactFrom(Format(n).value, calls);
  }

  /** The sectors that the free map's own file takes on a device of n sectors. */
  function MapSectors(n: nat): nat {
    Sectors(4 * ((n + 31) / 32))
  }

  /** Just the first k sectors are in use. */
  ghost predicate Front(m: seq<bool>, k: nat) {
    k <= |m| && forall x: nat :: x < |m| ==> (m[x] <==> x < k)
  }

  lemma ScanFront(m: seq<bool>, k: nat, n: nat)
    requires Front(m, k) && n > 0
    ensures Scan(m, 0, n, false) == if k + n <= |m| then Some(k) else None
  {
    var r := Scan(m, 0, n, false);
    if k + n <= |m| {
      assert AllAre(m, k, n, false);
    }
    assert r.Some? ==> r.value >= k by {
      assert r.Some? ==> !m[r.value];
    }
  }

  lemma AllocateFront(fs: FS, k: nat, n: nat)
    requires Front(fs.used, k) && n > 0
    ensures Allocate(fs, n).Some? <==> k + n <= |fs.used|
    ensures Allocate(fs, n).Some? ==>
      Allocate(fs, n).value.1 == k && Allocate(fs, n).value.0 == fs.(used := Marked(fs.used, k, n, true))
      && Front(Allocate(fs, n).value.0.used, k + n)
  {
    ScanFront(fs.used, k, n);
    hide Scan;
  }

  lemma InodeCreateFront(fs: FS, k: nat, sector: nat, length: nat)
    requires |fs.blocks| == |fs.used| && sector < |fs.blocks| && Front(fs.used, k) && Sectors(length) > 0
    ensures var r := InodeCreate(fs, sector, length);
      && (r.Some? <==> k + Sectors(length) <= |fs.used|)
      && (r.Some? ==> |r.value.used| == |r.value.blocks| == |fs.used| && r.value.dir == fs.dir
                      && Front(r.value.used, k + Sectors(length)))
  {
    AllocateFront(fs, k, Sectors(length));
    hide Allocate, Front, ZeroSector;
  }

  lemma FormatIs(n: nat)
    requires n >= 2
    ensures Format(n).Some? <==> 3 + MapSectors(n) <= n
    ensures Format(n).Some? ==>
      var fs := Format(n).value;
      |fs.used| == |fs.blocks| == n && Front(fs.used, 3 + MapSectors(n)) && fs.dir == seq(16, _ => Free)
  {
    var blank := FS(Marked(seq(n, _ => false), 0, 2, true), seq(n, _ => Data(ZeroSector())), seq(16, _ => Free), map[]);
    assert Front(blank.used, 2);
    assert Sectors(16 * 20) == 1 && MapSectors(n) == Sectors(4 * ((n + 31) / 32)) >= 1;
    hide Marked, InodeCreate, ZeroSector, Front, Sectors, MapSectors;
    InodeCreateFront(blank, 2, FREE_MAP_SECTOR, 4 * ((n + 31) / 32));
    var f := InodeCreate(blank, FREE_MAP_SECTOR, 4 * ((n + 31) / 32));
    if f.Some? {
      InodeCreateFront(f.value, 2 + MapSectors(n), ROOT_DIR_SECTOR, 16 * 20);
    }
  }

  /** Formatting succeeds on every device but those of fewer than four sectors. */
  lemma FormatSucceeds(n: nat)
    requires n >= 2
    ensures Format(n).Some? <==> n >= 4
  {
    FormatIs(n);
    hide Format;
  }

  /** A device of up to 4096 * m sectors has a bit for each of them in m sectors of the free map's file. Formatted, it
      has those in use, the two reserved ones and one for the root directory, which has sixteen free entries; just
      the free map's file is open. */
  lemma FormatMeans(n: nat, m: nat)
    requires n >= 4 && 4096 * m - 4096 < n <= 4096 * m
    ensures Format(n).Some?
    ensures var fs := Format(n).value;
      && |fs.used| == |fs.blocks| == n
      && (forall x: nat :: x < n ==> (fs.used[x] <==> x < m + 3))
      && |fs.dir| == 16 && (forall i :: 0 <= i < 16 ==> fs.dir[i] == Free)
      && fs.open.Keys == {FREE_MAP_SECTOR} && fs.open[FREE_MAP_SECTOR].cnt == 1
  {
    FormatIs(n);
    FormatSucceeds(n);
    MapSectorsIs(n, m);
    FormatOpen(n);
    hide Format, MapSectors;
  }

  lemma MapSectorsIs(n: nat, m: nat)
    requires 4096 * m - 4096 < n <= 4096 * m
    ensures MapSectors(n) == m
  {
    var words := (n + 31) / 32;
    assert 128 * m - 128 < words <= 128 * m;
  }

  lemma FormatOpen(n: nat)
    requires n >= 2 && Format(n).Some?
    ensures Format(n).value.open.Keys == {FREE_MAP_SECTOR} && Format(n).value.open[FREE_MAP_SECTOR].cnt == 1
  {
    hide Scan, Marked, Filled, ZeroSector, Sectors;
  }

  /** A refused create on any freshly formatted device with two sectors left: the name is empty, and the data
      sector stays marked, owned by nobody. */
  lemma LeakExample(n: nat)
    requires n >= 6
    ensures Format(n).Some?
    ensures var fs, k := Format(n).value, 3 + MapSectors(n);
      && |fs.used| == |fs.blocks| == n >= k + 2
      && Create(fs, "", 1) == (fs.(used := fs.used[k + 1 := true],
                                   blocks := fs.blocks[k := Inode(Header(k + 1, 1))][k + 1 := Data(ZeroSector())]), false)
    ensures var fs, calls := Format(n).value, [CCreate("", 1)]; EverLeaked(fs, calls) && !Exact(Run(fs, calls))
  {
    FormatIs(n);
    hide Format, Front, Create;
    RefusedOnFront(Format(n).value, 3 + MapSectors(n));
    RunExact(n, [CCreate("", 1)]);
  }

  /** The refused create where just the first k sectors are in use. */
  lemma RefusedOnFront(fs: FS, k: nat)
    requires |fs.used| == |fs.blocks| && 0 < k && k + 2 <= |fs.used| && Front(fs.used, k)
    ensures Create(fs, "", 1) == (fs.(used := fs.used[k + 1 := true],
      blocks := fs.blocks[k := Inode(Header(k + 1, 1))][k + 1 := Data(ZeroSector())]), false)
    ensures EverLeaked(fs, [CCreate("", 1)])
  {
    var f := fs.(used := fs.used[k := true]);
    var g := f.(used := f.used[k + 1 := true], blocks := f.blocks[k := Inode(Header(k + 1, 1))][k + 1 := Data(ZeroSector())]);
    AllocateFirst(fs, k);
    AllocateFirst(f, k + 1);
    hide Allocate, Scan, Marked;
    CreateOneSector(f, k, k + 1);
    RefusedCreate(fs, f, g, k);
    assert fs.used[k + 1 := true] == g.used[k := false];
    LeaksHere(fs, f, k);
  }

  lemma LeaksHere(fs: FS, f: FS, sector: nat)
    requires |fs.used| == |fs.blocks| == |f.blocks| == |f.used| && sector < |f.blocks|
    requires Allocate(fs, 1) == Some((f, sector)) && InodeCreate(f, sector, 1).Some?
    ensures EverLeaked(fs, [CCreate("", 1)])
  {
    assert [CCreate("", 1)][..0] == [];
    assert Sectors(1) == 1;
  }

  lemma CreateOneSector(f: FS, sector: nat, i: nat)
    requires |f.blocks| == |f.used| && sector < |f.blocks| && i < |f.blocks|
    requires Allocate(f, 1) == Some((f.(used := f.used[i := true]), i))
    ensures InodeCreate(f, sector, 1) == Some(f.(used := f.used[i := true],
      blocks := f.blocks[sector := Inode(Header(i, 1))][i := Data(ZeroSector())]))
  {
    var b := f.blocks[sector := Inode(Header(i, 1))];
    assert Filled(b, i, 1) == b[i := Data(ZeroSector())];
    assert Sectors(1) == 1;
  }

  lemma RefusedCreate(fs: FS, f: FS, g: FS, sector: nat)
    requires |fs.blocks| == |fs.used| == |f.blocks| == |f.used| == |g.used| && 0 < sector < |f.blocks|
    requires Allocate(fs, 1) == Some((f, sector)) && InodeCreate(f, sector, 1) == Some(g)
    ensures Create(fs, "", 1) == (g.(used := g.used[sector := false]), false)
  {
    assert Marked(g.used, sector, 1, false) == g.used[sector := false];
  }

  lemma AllocateFirst(fs: FS, i: nat)
    requires i < |fs.used| && !fs.used[i] && forall x :: 0 <= x < i ==> fs.used[x]
    ensures Allocate(fs, 1) == Some((fs.(used := fs.used[i := true]), i))
  {
    var r := Scan(fs.used, 0, 1, false);
    assert AllAre(fs.used, i, 1, false);
    assert r.Some? && !fs.used[r.value];
    assert Marked(fs.used, i, 1, true) == fs.used[i := true];
  }

  // ---------------------------------------------------------------- the directory as a map

  /** The inode a name stands for. */
  function Find(dir: seq<Entry>, name: string): Option<nat> {
    match Lookup(dir, name)
    case None => None
    case Some(i) => Some(dir[i].sector)
  }

  ghost predicate UniqueNames(dir: seq<Entry>) {
    forall i, j :: 0 <= i < j < |dir| && dir[i].Used? && dir[j].Used? ==> dir[i].name != dir[j].name
  }

  lemma FindIs(dir: seq<Entry>, i: nat)
    requires UniqueNames(dir) && i < |dir| && dir[i].Used?
    ensures Find(dir, dir[i].name) == Some(dir[i].sector)
  {
  }

  /** dir_add() binds the new name and touches no other. */
  lemma FindAfterAdd(dir: seq<Entry>, name: string, sector: nat, other: string)
    requires UniqueNames(dir) && DirAdd(dir, name, sector).Some?
    ensures var d := DirAdd(dir, name, sector).value;
      UniqueNames(d) && Find(d, other) == if other == name then Some(sector) else Find(dir, other)
  {
    var d := DirAdd(dir, name, sector).value;
    var i := FreeSlot(dir, 0).value;
    assert UniqueNames(d);
    hide Lookup;
    FindIs(d, i);
    if other != name {
      FindAfterUpdate(dir, d, i, other);
    }
  }

  lemma FindAfterUpdate(dir: seq<Entry>, d: seq<Entry>, i: nat, other: string)
    requires UniqueNames(dir) && UniqueNames(d) && |d| == |dir| && i < |dir|
    requires forall j :: 0 <= j < |dir| && j != i ==> d[j] == dir[j]
    requires dir[i].Used? ==> dir[i].name != other
    requires d[i].Used? ==> d[i].name != other
    ensures Find(d, other) == Find(dir, other)
  {
    var a, b := Lookup(dir, other), Lookup(d, other);
    if a.Some? {
      assert d[a.value] == dir[a.value];
      FindIs(d, a.value);
    }
  }

  /** dir_remove() unbinds the name and touches no other. */
  lemma FindAfterRemove(dir: seq<Entry>, name: string, other: string)
    requires UniqueNames(dir) && Lookup(dir, name).Some?
    ensures var d := dir[Lookup(dir, name).value := Free];
      UniqueNames(d) && Find(d, other) == if other == name then None else Find(dir, other)
  {
    var i := Lookup(dir, name).value;
    var d := dir[i := Free];
    if other != name {
      FindAfterUpdate(dir, d, i, other);
    }
  }

  // ---------------------------------------------------------------- what the calls mean

  /** The same inodes are open in the same way, but for o. */
  ghost predicate OpenBut(fs: FS, g: FS, o: nat) {
    && (forall p :: p != o ==> (p in g.open <==> p in fs.open))
    && (forall p :: p != o && p in fs.open && p in g.open ==> g.open[p] == fs.open[p])
  }

  /** filesys_open() gives a handle on the file of that name if there is one: one more opener of it, and nothing
      else changes. */
  lemma OpenMeans(fs: FS, name: string)
    requires Inv(fs)
    ensures var (g, handle) := Open(fs, name);
      && handle == Find(fs.dir, name) && g.used == fs.used && g.blocks == fs.blocks && g.dir == fs.dir
      && (handle == None ==> g == fs)
      && (handle.Some? ==>
            var o := handle.value;
            && OpenBut(fs, g, o) && o in g.open && !g.open[o].removed && g.open[o].data == HeaderAt(fs, o)
            && g.open[o].cnt == (if o in fs.open then fs.open[o].cnt else 0) + 1)
  {
    OpenByNameInv(fs, name);
    var r := Lookup(fs.dir, name);
    if r.Some? {
      assert Named(fs, fs.dir[r.value].sector);
    }
  }

  lemma RemovedOnlyOne(fs: FS, name: string)
    requires Inv(fs) && Lookup(fs.dir, name).Some?
    ensures var i := Lookup(fs.dir, name).value; var o := fs.dir[i].sector; var u := Unlinked(fs, i);
      && Remove(fs, name) == (InodeClose(u, o), true)
      && u.dir == fs.dir[i := Free] && u.used == fs.used && u.blocks == fs.blocks && OpenBut(fs, u, o)
      && o in u.open && u.open[o].removed && u.open[o].data == HeaderAt(fs, o)
      && u.open[o].cnt == (if o in fs.open then fs.open[o].cnt else 0) + 1
  {
  }

  lemma CloseOne(fs: FS, o: nat)
    requires o in fs.open && fs.open[o].cnt > 0
    ensures var g := InodeClose(fs, o);
      && g.dir == fs.dir && g.blocks == fs.blocks && OpenBut(fs, g, o)
      && (o in g.open <==> fs.open[o].cnt > 1)
      && (fs.open[o].cnt > 1 ==> g.open[o] == fs.open[o].(cnt := fs.open[o].cnt - 1) && g.used == fs.used)
      && (fs.open[o].cnt == 1 && !fs.open[o].removed ==> g.used == fs.used)
  {
  }

  /** Closing a handle takes one opener away, and nothing else changes unless it was the last of a removed file
      (see LastClose). */
  lemma CloseMeans(fs: FS, o: nat)
    requires Inv(fs) && o in fs.open && o != FREE_MAP_SECTOR
    ensures var g := Next(fs, CClose(o));
      && g.dir == fs.dir && g.blocks == fs.blocks && OpenBut(fs, g, o)
      && (o in g.open ==> g.open[o] == fs.open[o].(cnt := fs.open[o].cnt - 1))
      && (o in g.open <==> fs.open[o].cnt > 1)
      && (fs.open[o].cnt > 1 || Named(fs, o) || o < 2 ==> g.used == fs.used)
  {
    CloseOne(fs, o);
  }

  /** A call of filesys_create() that fails leaves every name, every open inode and every sector of a file as they
      were. */
  lemma CreateFails(fs: FS, name: string, size: nat)
    requires Inv(fs) && !Create(fs, name, size).1
    ensures var g := Create(fs, name, size).0;
      && g.dir == fs.dir && g.open == fs.open && |g.used| == |g.blocks| == |fs.blocks|
      && forall o, x: nat :: Owner(fs, o) && InFoot(HeaderAt(fs, o), o, x) && x < |fs.blocks| ==>
           g.used[x] && g.blocks[x] == fs.blocks[x]
  {
    if Allocate(fs, 1).Some? {
      CreateGrows(fs, size);
      var (f, sector) := Allocate(fs, 1).value;
      NotReserved(fs, sector);
      var m := InodeCreate(f, sector, size);
      hide Allocate, DirAdd, Grown, InodeCreate;
      if m.None? {
        ReleaseUndoes(fs, sector);
        OwnersMarked(fs);
      } else {
        var start :| Grown(fs, m.value, sector, Header(start, size));
        hide Inv, Release;
        RefusedKeeps(fs, m.value, sector, Header(start, size));
      }
    } else {
      OwnersMarked(fs);
    }
  }

  lemma OwnersMarked(fs: FS)
    requires Inv(fs)
    ensures |fs.used| == |fs.blocks|
    ensures forall o, x: nat :: Owner(fs, o) && InFoot(HeaderAt(fs, o), o, x) && x < |fs.blocks| ==> fs.used[x]
  {
    forall o, x: nat | Owner(fs, o) && InFoot(HeaderAt(fs, o), o, x) && x < |fs.blocks| ensures fs.used[x] {
      assert Good(fs, o);
    }
  }

  lemma RefusedKeeps(fs: FS, g: FS, sector: nat, h: Header)
    requires Inv(fs) && Grown(fs, g, sector, h)
    ensures var r := Release(g, sector, 1);
      && r.dir == fs.dir && r.open == fs.open && |r.used| == |r.blocks| == |fs.blocks|
      && forall o, x: nat :: Owner(fs, o) && InFoot(HeaderAt(fs, o), o, x) && x < |fs.blocks| ==>
           r.used[x] && r.blocks[x] == fs.blocks[x]
  {
    var r := Release(g, sector, 1);
    forall o, x: nat | Owner(fs, o) && InFoot(HeaderAt(fs, o), o, x) && x < |fs.blocks|
      ensures x < |r.used| && x < |r.blocks| && r.used[x] && r.blocks[x] == fs.blocks[x]
    {
      assert Good(fs, o);
      GrownKeeps(fs, g, sector, h, o);
    }
  }

  /** filesys_remove() succeeds exactly if there is a file of that name. Then that name, and no other, has lost its
      meaning, and that inode its name; if it was open it is open as before, but removed, and if not its sectors,
      and no others, are free. A call that fails changes nothing. */
  lemma RemoveMeans(fs: FS, name: string)
    requires Inv(fs)
    ensures var (g, ok) := Remove(fs, name);
      && (ok <==> Find(fs.dir, name).Some?)
      && (!ok ==> g == fs)
      && (ok ==>
            var o := Find(fs.dir, name).value;
            && (forall other :: Find(g.dir, other) == if other == name then None else Find(fs.dir, other))
            && (forall p :: Named(g, p) <==> Named(fs, p) && p != o)
            && OpenBut(fs, g, o) && g.blocks == fs.blocks
            && (o in g.open <==> o in fs.open)
            && (o in fs.open ==> g.open[o] == fs.open[o].(removed := true) && g.used == fs.used)
            && (o !in fs.open ==>
                  |g.used| == |fs.used|
                  && forall x: nat :: x < |fs.used| ==> (g.used[x] <==> fs.used[x] && !InFoot(HeaderAt(fs, o), o, x))))
  {
    var r := Lookup(fs.dir, name);
    if r.Some? {
      var i, o := r.value, fs.dir[r.value].sector;
      var u := Unlinked(fs, i);
      assert Named(fs, o);
      RemovedOnlyOne(fs, name);
      UnlinkedInv(fs, i);
      CloseOne(u, o);
      if u.open[o].cnt == 1 {
        LastClose(u, o);
      }
      forall other ensures Find(u.dir, other) == if other == name then None else Find(fs.dir, other) {
        FindAfterRemove(fs.dir, name, other);
      }
      forall p: nat ensures Named(InodeClose(u, o), p) <==> Named(fs, p) && p != o {
        UnlinkedNames(fs, i, p);
        NamedSame(u, InodeClose(u, o), p);
      }
      hide OwnInv, Lookup, Unlinked, InodeClose;
    }
  }

  // ---------------------------------------------------------------- the code, in place

  /** The globals of the file system as its code updates them, with the loops over the free map,
      the directory and the sectors. */
  class Volume {
    var used: seq<bool>
    var blocks: seq<Block>
    var dir: seq<Entry>
    var open: map<nat, Opened>

    function State(): FS
      reads this
    {
      FS(used, blocks, dir, open)
    }

    /** free_map_allocate(). "written" says whether the map can be written to its file, if that is open; if
        not, the sectors are taken back. */
    method FreeMapAllocate(n: nat, written: bool) returns (r: Option<nat>)
      modifies this`used
      ensures match Allocate(old(State()), n)
              case None => r == None && State() == old(State())
              case Some((f, i)) => if written then r == Some(i) && State() == f else r == None && State() == old(State())
    {
      r := Scan(used, 0, n, false);
      if r.Some? {
        FlipBack(used, 0, n, false);
        used := Marked(used, r.value, n, true);
        if !written {
          used := Marked(used, r.value, n, false);
          r := None;
        }
      }
    }

    /** The loop of inode_create() that zeros the extent. */
    method ZeroExtent(start: nat, n: nat)
      requires start + n <= |blocks|
      modifies this`blocks
      ensures blocks == Filled(old(blocks), start, n)
    {
      for x := 0 to n
        invariant |blocks| == |old(blocks)|
        invariant forall y :: 0 <= y < |blocks| && !(start <= y < start + x) ==> blocks[y] == old(blocks)[y]
        invariant forall y :: start <= y < start + x ==> blocks[y] == Data(ZeroSector())
      {
        blocks := blocks[start + x := Data(ZeroSector())];
      }
      assert blocks == Filled(old(blocks), start, n);
    }

    method CreateInode(sector: nat, length: nat) returns (ok: bool)
      requires |blocks| == |used| && sector < |blocks|
      modifies this`used, this`blocks
      ensures match InodeCreate(old(State()), sector, length)
              case None => !ok && State() == old(State())
              case Some(f) => ok && State() == f
    {
      var start := FreeMapAllocate(Sectors(length), true);
      if start.Some? {
        blocks := blocks[sector := Inode(Header(start.value, length))];
        ZeroExtent(start.value, Sectors(length));
      }
      ok := start.Some?;
    }

    /** lookup(). */
    method DirLookup(name: string) returns (r: Option<nat>)
      ensures r == Lookup(dir, name)
    {
      for i := 0 to |dir|
        invariant LookupFrom(dir, name, 0) == LookupFrom(dir, name, i)
      {
        if dir[i].Used? && dir[i].name == name {
          return Some(i);
        }
      }
      return None;
    }

    method AddEntry(name: string, sector: nat) returns (ok: bool)
      modifies this`dir
      ensures match DirAdd(old(dir), name, sector)
              case None => !ok && dir == old(dir)
              case Some(d) => ok && dir == d
    {
      if name == "" || |name| > NAME_MAX {
        return false;
      }
      var found := DirLookup(name);
      if found.Some? {
        return false;
      }
      var i := 0;
      while i < |dir| && dir[i].Used?
        invariant i <= |dir| && FreeSlot(dir, 0) == FreeSlot(dir, i)
      {
        i := i + 1;
      }
      if i == |dir| {
        return false;
      }
      dir := dir[i := Used(name, sector)];
      return true;
    }

    method FilesysCreate(name: string, size: nat) returns (ok: bool)
      requires Inv(State())
      modifies this
      ensures Inv(State()) && (State(), ok) == Create(old(State()), name, size)
    {
      CreateInv(State(), name, size);
      hide Inv, Scan, DirAdd;
      var sector := FreeMapAllocate(1, true);
      if sector == None {
        return false;
      }
      ok := CreateInode(sector.value, size);
      hide Allocate, InodeCreate, Sectors;
      if ok {
        ok := AddEntry(name, sector.value);
      }
      if !ok && sector.value != 0 {
        used := Marked(used, sector.value, 1, false);
      }
    }

    /** inode_open(). */
    method OpenInode(o: nat)
      modifies this`open
      ensures State() == InodeOpen(old(State()), o)
    {
      if o in open {
        open := open[o := open[o].(cnt := open[o].cnt + 1)];
      } else {
        open := open[o := Opened(1, false, HeaderAt(State(), o))];
      }
    }

    /** inode_reopen(), through a handle that is open. */
    method ReopenInode(o: nat)
      requires Inv(State()) && o in open
      modifies this`open
      ensures Inv(State()) && State() == InodeOpen(old(State()), o)
    {
      ReopenInv(State(), o);
      open := open[o := open[o].(cnt := open[o].cnt + 1)];
    }

    /** inode_close(); both assertions of free_map_release() hold. */
    method CloseInode(o: nat)
      requires Inv(State()) && o in open && o != FREE_MAP_SECTOR
      modifies this`open, this`used
      ensures Inv(State()) && State() == InodeClose(old(State()), o)
    {
      CloseInv(State(), o);
      if open[o].cnt == 1 && open[o].removed {
        LastClose(State(), o);
      }
      var x := open[o].(cnt := open[o].cnt - 1);
      open := open[o := x];
      if x.cnt == 0 {
        open := open - {o};
        assert open == old(open) - {o};
        if x.removed {
          assert CanRelease(State(), o, 1);
          used := Marked(used, o, 1, false);
          assert CanRelease(State(), x.data.start, Sectors(x.data.length));
          used := Marked(used, x.data.start, Sectors(x.data.length), false);
        }
      }
    }

    method FilesysOpen(name: string) returns (handle: Option<nat>)
      requires Inv(State())
      modifies this`open
      ensures Inv(State()) && (State(), handle) == Open(old(State()), name)
    {
      OpenByNameInv(State(), name);
      var i := DirLookup(name);
      if i == None {
        return None;
      }
      OpenInode(dir[i.value].sector);
      return Some(dir[i.value].sector);
    }

    method FilesysRemove(name: string) returns (ok: bool)
      requires Inv(State())
      modifies this
      ensures Inv(State()) && (State(), ok) == Remove(old(State()), name)
    {
      var i := DirLookup(name);
      if i == None {
        return false;
      }
      UnlinkedInv(State(), i.value);
      assert dir[i.value].sector >= 2;
      hide Inv, Lookup;
      var o := dir[i.value].sector;
      OpenInode(o);
      dir := dir[i.value := Free];
      open := open[o := open[o].(removed := true)];
      assert State() == Unlinked(old(State()), i.value);
      CloseInode(o);
      return true;
    }
  }
}
