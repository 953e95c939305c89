/** Archives and the file system together. */
module Extraction {
  /*
   The part of fsutil_extract() that puts the files it finds into the file system: filesys_create(),
   filesys_open(), file_write() sector by sector, file_close(). A panic is the result None. As in FileSys,
   memory can be had and the free map can be written.
   */

  import opened Common
  import opened InodeIO
  import opened FileSys
  import Archive
  import Ustar
  import Bitmap

  function BytesOf(data: string): (b: seq<Byte>)
    ensures |b| == |data|
  {
    seq<Byte>(|data|, i requires 0 <= i < |data| => data[i] as int % 256)
  }

  // ---------------------------------------------------------------- one file

  /** The bytes for sector k of a file. */
  function Piece(bytes: seq<Byte>, k: nat): (p: seq<Byte>)
    requires 512 * k <= |bytes|
    ensures |p| <= 512
  {
    bytes[512 * k..Min(512 * k + 512, |bytes|)]
  }

  /** What inode_write_at() leaves in a sector when it writes the piece at its beginning. */
  function Patched(old_: Block, piece: seq<Byte>): seq<Byte> {
    match old_
    case Inode(_) => piece
    case Data(bytes) => if |piece| <= |bytes| then piece + bytes[|piece|..] else piece
  }

  /** A sector of zeros. */
  function Blank(): Block {
    Data(ZeroSector())
  }

  function BlockAt(fs: FS, x: nat): Block {
    if x < |fs.blocks| then fs.blocks[x] else Data([])
  }

  /** The loop over file_write(), from sector k on. */
  function WriteAll(fs: FS, o: nat, bytes: seq<Byte>, k: nat): FS
    decreases |bytes| - 512 * k
  {
    if |bytes| <= 512 * k || o !in fs.open then fs
    else
      var x := fs.open[o].data.start + k;
      WriteAll(WriteSector(fs, o, k, Patched(BlockAt(fs, x), Piece(bytes, k))), o, bytes, k + 1)
  }

  /** One file of the archive. */
  function Store(fs: FS, name: string, bytes: seq<Byte>): Option<FS>
    requires |fs.blocks| == |fs.used|
  {
    var (created, ok) := Create(fs, name, |bytes|);
    if !ok then None
    else
      match Open(created, name)
      case (_, None) => None
      case (ready, Some(o)) =>
        var written := WriteAll(ready, o, bytes, 0);
        if o in written.open && written.open[o].cnt > 0 then Some(InodeClose(written, o)) else None
  }

  /** Sector k of a file with these contents: the bytes, then zeros. */
  function Full(bytes: seq<Byte>, k: nat): (s: seq<Byte>)
    ensures |s| == 512
  {
    seq<Byte>(512, i requires 0 <= i < 512 => if 512 * k + i < |bytes| then bytes[512 * k + i] else 0)
  }

  /** The sectors of inode o hold these bytes. */
  ghost predicate Contains(fs: FS, o: nat, bytes: seq<Byte>) {
    && o < |fs.blocks| && fs.blocks[o].Inode? && fs.blocks[o].h.length == |bytes|
    && var start := fs.blocks[o].h.start;
       forall x: nat :: start <= x < start + Sectors(|bytes|) ==> BlockAt(fs, x) == Data(Full(bytes, x - start))
  }

  /** The file system has a file of that name with these contents. */
  ghost predicate Holds(fs: FS, name: string, bytes: seq<Byte>) {
    Find(fs.dir, name).Some? && Contains(fs, Find(fs.dir, name).value, bytes)
  }

  /** Byte i of the file is byte i of its contents. */
  lemma HeldBytes(fs: FS, name: string, bytes: seq<Byte>, i: nat)
    requires Holds(fs, name, bytes) && i < |bytes|
    ensures var h := fs.blocks[Find(fs.dir, name).value].h;
      var b := BlockAt(fs, h.start + i / 512);
      b.Data? && |b.bytes| == 512 && b.bytes[i % 512] == bytes[i]
  {
    var h := fs.blocks[Find(fs.dir, name).value].h;
    assert i / 512 < Sectors(|bytes|);
    assert BlockAt(fs, h.start + i / 512) == Data(Full(bytes, i / 512));
    assert 512 * (i / 512) + i % 512 == i;
  }

  // ---------------------------------------------------------------- create

  /** What a successful filesys_create() leaves: a file of zeros of that length under the name, and nothing
      else changed. */
  ghost predicate Fresh(fs: FS, g: FS, name: string, o: nat, h: Header) {
    && |g.blocks| == |fs.blocks| && g.open == fs.open && o !in g.open && o != FREE_MAP_SECTOR
    && o < |g.blocks| && g.blocks[o] == Inode(h) && !(h.start <= o < h.start + Sectors(h.length)) && h.start + Sectors(h.length) <= |g.blocks|
    && (forall x: nat :: h.start <= x < h.start + Sectors(h.length) ==> g.blocks[x] == Blank())
    && (forall x: nat :: x < |fs.blocks| && !InFoot(h, o, x) ==> g.blocks[x] == fs.blocks[x])
    && (forall p: nat, x: nat :: Owner(fs, p) && InFoot(HeaderAt(fs, p), p, x) ==> !InFoot(h, o, x))
    && (forall other :: Find(g.dir, other) == if other == name then Some(o) else Find(fs.dir, other))
    && Find(fs.dir, name) == None
  }

  lemma ExtentIs(f: FS, sector: nat, length: nat, start: nat)
    requires |f.blocks| == |f.used| && sector < |f.blocks| && f.used[sector] && InodeCreate(f, sector, length).Some?
    requires InodeCreate(f, sector, length).value.blocks[sector] == Inode(Header(start, length))
    ensures var g := InodeCreate(f, sector, length).value;
      && |g.blocks| == |f.blocks| && start + Sectors(length) <= |g.blocks|
      && forall x: nat :: start <= x < start + Sectors(length) ==> g.blocks[x] == Blank()
  {
    var i := Allocate(f, Sectors(length)).value.1;
    Bitmap.ScanIsFree(f.used, Sectors(length), i);
    hide Bitmap.Scan;
    assert !(i <= sector < i + Sectors(length));
  }

  lemma CreateFresh(fs: FS, name: string, size: nat) returns (o: nat, h: Header)
    requires Inv(fs) && Create(fs, name, size).1
    ensures h.length == size && Fresh(fs, Create(fs, name, size).0, name, o, h)
  {
    CreateGrows(fs, size);
    var (f, sector) := Allocate(fs, 1).value;
    NotReserved(fs, sector);
    var g := InodeCreate(f, sector, size).value;
    var start: nat :| Grown(fs, g, sector, Header(start, size));
    o, h := sector, Header(start, size);
    ExtentIs(f, sector, size, start);
    assert Create(fs, name, size).0 == g.(dir := DirAdd(g.dir, name, sector).value);
    hide Create, Allocate, InodeCreate;
    GrownFresh(fs, g, name, o, h);
  }

  lemma GrownFresh(fs: FS, g: FS, name: string, o: nat, h: Header)
    requires Inv(fs) && Grown(fs, g, o, h) && o >= 2 && DirAdd(g.dir, name, o).Some?
    requires forall x: nat :: h.start <= x < h.start + Sectors(h.length) ==> g.blocks[x] == Blank()
    ensures Fresh(fs, g.(dir := DirAdd(g.dir, name, o).value), name, o, h)
  {
    forall p: nat | Owner(fs, p)
      ensures p != o && forall x: nat :: !(InFoot(HeaderAt(fs, p), p, x) && InFoot(h, o, x))
    {
      GrownKeeps(fs, g, o, h, p);
    }
    forall other ensures Find(DirAdd(g.dir, name, o).value, other) == if other == name then Some(o) else Find(fs.dir, other) {
      FindAfterAdd(g.dir, name, o, other);
    }
    assert Find(fs.dir, name) == None;
    hide DirAdd, Find;
  }

  // ---------------------------------------------------------------- writing the contents

  /** The sectors up to the k-th are written, the others of the file are zeros, and all else is as in fs. */
  ghost predicate Written(fs: FS, g: FS, o: nat, bytes: seq<Byte>, k: nat)
    requires o in fs.open
  {
    var h := fs.open[o].data;
    && |g.blocks| == |fs.blocks| && |g.used| == |fs.used| && g.open == fs.open && g.dir == fs.dir
    && h.length == |bytes| && h.start + Sectors(|bytes|) <= |g.blocks|
    && (forall x: nat :: x < |g.blocks| && !(h.start <= x < h.start + Sectors(|bytes|)) ==> g.blocks[x] == fs.blocks[x])
    && (forall x: nat :: h.start <= x < h.start + Sectors(|bytes|) ==>
          g.blocks[x] == if x < h.start + k then Data(Full(bytes, x - h.start)) else Blank())
  }

  lemma FullIs(bytes: seq<Byte>, k: nat)
    requires 512 * k < |bytes|
    ensures Patched(Blank(), Piece(bytes, k)) == Full(bytes, k)
  {
  }

  lemma WriteOne(fs: FS, g: FS, o: nat, bytes: seq<Byte>, k: nat)
    requires o in fs.open && Written(fs, g, o, bytes, k) && 512 * k < |bytes|
    ensures var x := g.open[o].data.start + k;
      Written(fs, WriteSector(g, o, k, Patched(BlockAt(g, x), Piece(bytes, k))), o, bytes, k + 1)
  {
    var x := g.open[o].data.start + k;
    assert k < Sectors(|bytes|);
    assert g.blocks[fs.open[o].data.start + k] == Blank();
    FullIs(bytes, k);
    assert Patched(BlockAt(g, x), Piece(bytes, k)) == Full(bytes, k);
    hide Patched, Piece, Full, Blank;
  }

  lemma Done(fs: FS, g: FS, o: nat, bytes: seq<Byte>, k: nat)
    requires o in fs.open && Written(fs, g, o, bytes, k) && |bytes| <= 512 * k
    ensures Written(fs, g, o, bytes, Sectors(|bytes|))
  {
    hide Full, Blank;
    assert Sectors(|bytes|) <= k;
  }

  lemma {:induction false} AllWritten(fs: FS, g: FS, o: nat, bytes: seq<Byte>, k: nat)
    requires o in fs.open && o in g.open && Written(fs, g, o, bytes, k) && Inv(g)
    ensures Inv(WriteAll(g, o, bytes, k)) && Written(fs, WriteAll(g, o, bytes, k), o, bytes, Sectors(|bytes|))
    decreases |bytes| - 512 * k
  {
    hide Inv, WriteSector, Patched, Piece, Written;
    if 512 * k < |bytes| {
      var x := g.open[o].data.start + k;
      var p := Patched(BlockAt(g, x), Piece(bytes, k));
      WriteOne(fs, g, o, bytes, k);
      WriteInv(g, o, k, p);
      StillOpen(g, o, k, p);
      AllWritten(fs, WriteSector(g, o, k, p), o, bytes, k + 1);
    } else {
      Done(fs, g, o, bytes, k);
    }
  }

  lemma StillOpen(g: FS, o: nat, k: nat, p: seq<Byte>)
    ensures WriteSector(g, o, k, p).open == g.open
  {
  }

  // ---------------------------------------------------------------- one file stored

  /** There are a sector for an inode, the first free one, and a run of others for n sectors of data. */
  ghost predicate HasRoom(used: seq<bool>, n: nat) {
    exists sector: nat :: FirstFree(used, sector) && HasRun(used[sector := true], n)
  }

  predicate FirstFree(used: seq<bool>, sector: nat) {
    sector < |used| && !used[sector] && forall x :: 0 <= x < sector ==> used[x]
  }

  ghost predicate HasRun(used: seq<bool>, n: nat) {
    exists start: nat :: Bitmap.AllAre(used, start, n, false)
  }

  /** When filesys_create() succeeds, and a file of the archive can be stored. */
  ghost predicate CanStore(fs: FS, name: string, size: nat) {
    && 1 <= |name| <= 14 && Find(fs.dir, name) == None && (exists i :: 0 <= i < |fs.dir| && fs.dir[i].Free?)
    && HasRoom(fs.used, Sectors(size))
  }

  lemma RoomIs(fs: FS, size: nat)
    requires |fs.blocks| == |fs.used|
    ensures HasRoom(fs.used, Sectors(size))
      <==> Allocate(fs, 1).Some? && Allocate(Allocate(fs, 1).value.0, Sectors(size)).Some?
  {
    var n := Sectors(size);
    hide Sectors;
    if Allocate(fs, 1).Some? {
      var (f, sector) := Allocate(fs, 1).value;
      assert f.used == fs.used[sector := true];
      assert FirstFree(fs.used, sector) by {
        forall x | 0 <= x < sector ensures fs.used[x] {
          assert !Bitmap.AllAre(fs.used, x, 1, false);
        }
      }
      if Allocate(f, n).Some? {
        assert Bitmap.AllAre(fs.used[sector := true], Allocate(f, n).value.1, n, false);
      }
    }
    if HasRoom(fs.used, n) {
      var sector: nat :| FirstFree(fs.used, sector) && HasRun(fs.used[sector := true], n);
      AllocateFirst(fs, sector);
    }
  }

  lemma FreeSlotIs(dir: seq<Entry>)
    ensures FreeSlot(dir, 0).Some? <==> exists i :: 0 <= i < |dir| && dir[i].Free?
  {
  }

  lemma CreateSucceeds(fs: FS, name: string, size: nat)
    requires |fs.blocks| == |fs.used|
    ensures Create(fs, name, size).1 <==> CanStore(fs, name, size)
  {
    RoomIs(fs, size);
    FreeSlotIs(fs.dir);
    hide HasRoom, FreeSlot, Lookup, Sectors;
  }

  /** When a create leaves the free map inexact: there was room for a file that is not empty, and the directory has
      no place for the name. */
  lemma LeaksMeans(fs: FS, name: string, size: nat)
    requires Inv(fs)
    ensures Leaks(fs, name, size) <==>
      && size > 0 && HasRoom(fs.used, Sectors(size))
      && !(1 <= |name| <= 14 && Find(fs.dir, name) == None && exists i :: 0 <= i < |fs.dir| && fs.dir[i].Free?)
  {
    RoomIs(fs, size);
    FreeSlotIs(fs.dir);
    if Allocate(fs, 1).Some? {
      CreateGrows(fs, size);
    }
    hide HasRoom, FreeSlot, Lookup, Inv, Bitmap.Scan;
  }

  /** A file of the archive is stored exactly if it can be created. Then the file system has it under its name,
      byte for byte, has every other file as before, and the same inodes open. */
  lemma StoreHolds(fs: FS, name: string, bytes: seq<Byte>)
    requires Inv(fs)
    ensures Store(fs, name, bytes).Some? <==> CanStore(fs, name, |bytes|)
    ensures Store(fs, name, bytes).Some? ==>
      var g := Store(fs, name, bytes).value;
      && Inv(g) && g.open == fs.open && Holds(g, name, bytes)
      && (forall other, b :: Holds(fs, other, b) ==> other != name && Holds(g, other, b))
      && Find(fs.dir, name) == None && forall other :: other != name ==> Find(g.dir, other) == Find(fs.dir, other)
  {
    CreateSucceeds(fs, name, |bytes|);
    hide CanStore;
    if Create(fs, name, |bytes|).1 {
      var o, h := CreateFresh(fs, name, |bytes|);
      CreateInv(fs, name, |bytes|);
      hide Inv, Create, Fresh, WriteAll, Written, Contains, InodeClose, Find;
      StoreFresh(fs, Create(fs, name, |bytes|).0, name, bytes, o, h);
    }
  }

  lemma FoundFresh(fs: FS, g: FS, name: string, o: nat, h: Header)
    requires Fresh(fs, g, name, o, h)
    ensures Open(g, name) == (InodeOpen(g, o), Some(o))
    ensures InodeOpen(g, o) == g.(open := g.open[o := Opened(1, false, h)])
  {
    assert Find(g.dir, name) == Some(o);
    hide Lookup;
  }

  lemma StartWritten(fs: FS, g: FS, name: string, bytes: seq<Byte>, o: nat, h: Header)
    requires Inv(g) && Fresh(fs, g, name, o, h) && h.length == |bytes|
    ensures var ready := g.(open := g.open[o := Opened(1, false, h)]); Written(ready, ready, o, bytes, 0)
  {
    hide Blank, Full;
  }

  lemma ClosedAgain(fs: FS, g: FS, name: string, o: nat, h: Header, w: FS)
    requires Fresh(fs, g, name, o, h) && w.open == g.open[o := Opened(1, false, h)]
    ensures InodeClose(w, o) == w.(open := fs.open)
  {
    assert w.open - {o} == fs.open;
  }

  lemma NewHeld(fs: FS, g: FS, name: string, bytes: seq<Byte>, o: nat, h: Header, w: FS)
    requires Fresh(fs, g, name, o, h) && h.length == |bytes|
    requires var ready := g.(open := g.open[o := Opened(1, false, h)]); Written(ready, w, o, bytes, Sectors(|bytes|))
    ensures Holds(w.(open := fs.open), name, bytes)
  {
    hide Full, Blank, Find;
  }

  /** A file that is found is an owner. */
  lemma FoundIsOwner(fs: FS, other: string)
    requires Find(fs.dir, other).Some?
    ensures Owner(fs, Find(fs.dir, other).value)
  {
    var i := Lookup(fs.dir, other).value;
    assert fs.dir[i].Used? && fs.dir[i].sector == Find(fs.dir, other).value;
  }

  lemma OthersHeld(fs: FS, g: FS, name: string, bytes: seq<Byte>, o: nat, h: Header, w: FS, other: string, b: seq<Byte>)
    requires Fresh(fs, g, name, o, h) && h.length == |bytes| && Holds(fs, other, b)
    requires var ready := g.(open := g.open[o := Opened(1, false, h)]); Written(ready, w, o, bytes, Sectors(|bytes|))
    ensures other != name && Holds(w.(open := fs.open), other, b)
  {
    FoundIsOwner(fs, other);
    hide Full, Blank, Find, Owner, Sectors;
    var p := Find(fs.dir, other).value;
    var hp := fs.blocks[p].h;
    assert HeaderAt(fs, p) == hp && hp.length == |b|;
    assert other != name && Find(w.dir, other) == Some(p);
    assert InFoot(hp, p, p) && !InFoot(h, o, p);
    assert w.blocks[p] == fs.blocks[p];
    var r := w.(open := fs.open);
    forall x: nat | hp.start <= x < hp.start + Sectors(|b|) ensures BlockAt(r, x) == BlockAt(fs, x) {
      assert InFoot(hp, p, x);
      assert !InFoot(h, o, x);
    }
  }

  lemma SameOpen(ready: FS, w: FS, o: nat, bytes: seq<Byte>)
    requires o in ready.open && Written(ready, w, o, bytes, Sectors(|bytes|))
    ensures w.open == ready.open && w.dir == ready.dir
  {
  }

  lemma SameFinds(fs: FS, g: FS, name: string, o: nat, h: Header, w: FS)
    requires Fresh(fs, g, name, o, h) && w.dir == g.dir
    ensures Find(fs.dir, name) == None && forall other :: other != name ==> Find(w.dir, other) == Find(fs.dir, other)
  {
    hide Find;
  }

  lemma StoreFresh(fs: FS, g: FS, name: string, bytes: seq<Byte>, o: nat, h: Header)
    requires Inv(fs) && Inv(g) && Fresh(fs, g, name, o, h) && h.length == |bytes|
    ensures Open(g, name).1 == Some(o)
    ensures var w := WriteAll(Open(g, name).0, o, bytes, 0);
      && o in w.open && w.open[o].cnt > 0
      && var r := InodeClose(w, o);
         && Inv(r) && r.open == fs.open && Holds(r, name, bytes)
         && (forall other, b :: Holds(fs, other, b) ==> other != name && Holds(r, other, b))
         && Find(fs.dir, name) == None && forall other :: other != name ==> Find(r.dir, other) == Find(fs.dir, other)
  {
    FoundFresh(fs, g, name, o, h);
    OpenByNameInv(g, name);
    assert o != FREE_MAP_SECTOR;
    var ready := g.(open := g.open[o := Opened(1, false, h)]);
    StartWritten(fs, g, name, bytes, o, h);
    AllWritten(ready, ready, o, bytes, 0);
    var w := WriteAll(ready, o, bytes, 0);
    SameOpen(ready, w, o, bytes);
    SameFinds(fs, g, name, o, h, w);
    hide Inv, Fresh, Written, Holds, WriteAll, Open, InodeOpen, InodeClose;
    CloseInv(w, o);
    ClosedAgain(fs, g, name, o, h, w);
    NewHeld(fs, g, name, bytes, o, h, w);
    forall other, b | Holds(fs, other, b) ensures other != name && Holds(InodeClose(w, o), other, b) {
      OthersHeld(fs, g, name, bytes, o, h, w, other, b);
    }
  }

  // ---------------------------------------------------------------- all files

  /** The files of an archive, one after the other. */
  function StoreAll(fs: FS, files: seq<Archive.File>): Option<FS>
    requires |fs.blocks| == |fs.used|
    decreases |files|
  {
    if files == [] then Some(fs)
    else
      match Store(fs, files[0].name, BytesOf(files[0].data))
      case None => None
      case Some(g) => if |g.blocks| == |g.used| then StoreAll(g, files[1..]) else None
  }

  lemma HeldIsFound(fs: FS, name: string, bytes: seq<Byte>)
    requires Holds(fs, name, bytes)
    ensures Find(fs.dir, name).Some?
  {
  }

  /** From fs to g: one more file, all others as before, the same inodes open. */
  ghost predicate OneMore(fs: FS, g: FS, name: string, bytes: seq<Byte>) {
    && Inv(g) && g.open == fs.open && Holds(g, name, bytes)
    && (forall other, b :: Holds(fs, other, b) ==> Holds(g, other, b))
    && Find(fs.dir, name) == None && forall other :: other != name ==> Find(g.dir, other) == Find(fs.dir, other)
  }

  /** From fs to g: all the files more, which had no names before and have different ones. */
  ghost predicate AllMore(fs: FS, g: FS, files: seq<Archive.File>) {
    && Inv(g) && g.open == fs.open
    && (forall other, b :: Holds(fs, other, b) ==> Holds(g, other, b))
    && (forall i :: 0 <= i < |files| ==> Holds(g, files[i].name, BytesOf(files[i].data)) && Find(fs.dir, files[i].name) == None)
    && (forall i, j :: 0 <= i < j < |files| ==> files[i].name != files[j].name)
  }

  lemma MoreStep(fs: FS, g: FS, r: FS, files: seq<Archive.File>)
    requires files != [] && OneMore(fs, g, files[0].name, BytesOf(files[0].data)) && AllMore(g, r, files[1..])
    ensures AllMore(fs, r, files)
  {
    HeldIsFound(g, files[0].name, BytesOf(files[0].data));
    hide Inv, Holds, BytesOf, Find;
    forall i | 0 < i < |files|
      ensures Holds(r, files[i].name, BytesOf(files[i].data)) && Find(g.dir, files[i].name) == None
    {
      assert files[i] == files[1..][i - 1];
    }
    forall i, j | 0 <= i < j < |files| ensures files[i].name != files[j].name {
      assert i > 0 ==> files[i] == files[1..][i - 1] && files[j] == files[1..][j - 1];
    }
  }

  /** If nothing panics, the file system has every file of the archive under its name, byte for byte, and all
      that it had before; the names were not in use, and are different from each other. */
  lemma {:induction false} AllStored(fs: FS, files: seq<Archive.File>)
    requires Inv(fs) && StoreAll(fs, files).Some?
    ensures AllMore(fs, StoreAll(fs, files).value, files)
    decreases |files|
  {
    assert |fs.blocks| == |fs.used|;
    if files == [] {
      hide Inv, Holds, BytesOf, Find;
    } else {
      var bytes := BytesOf(files[0].data);
      StoreHolds(fs, files[0].name, bytes);
      hide Store, Holds, CanStore, BytesOf, Inv, Find, AllMore;
      var g := Store(fs, files[0].name, bytes).value;
      assert OneMore(fs, g, files[0].name, bytes);
      AllStored(g, files[1..]);
      MoreStep(fs, g, StoreAll(fs, files).value, files);
    }
  }

  /** The first n files are stored, and the next cannot be. */
  ghost predicate FailsAt(fs: FS, files: seq<Archive.File>, n: nat)
    requires |fs.blocks| == |fs.used|
  {
    n < |files| && StoreAll(fs, files[..n]).Some?
    && !CanStore(StoreAll(fs, files[..n]).value, files[n].name, |files[n].data|)
  }

  /** The files that were appended to the scratch device, extracted into the file system: each is there under
      its stripped name, byte for byte, with all that was there before, unless the extraction panics; and that
      happens exactly when some file cannot be created after those before it. */
  lemma ExtractInstalls(sectors: seq<Archive.Sector>, at: nat, end: nat, files: seq<Archive.File>, fs: FS)
    requires Archive.ArchiveAt(sectors, at, end, files) && end < |sectors| && Ustar.AllZeros(sectors[end]) && Inv(fs)
    ensures var found := Archive.Listing(sectors, at);
      && found == Some(Archive.Stripped(files))
      && (StoreAll(fs, found.value).Some? ==>
            var g := StoreAll(fs, found.value).value;
            && Inv(g) && g.open == fs.open && (forall other, b :: Holds(fs, other, b) ==> Holds(g, other, b))
            && forall i :: 0 <= i < |files| ==> Holds(g, Ustar.Strip(files[i].name), BytesOf(files[i].data)))
      && (StoreAll(fs, found.value) == None <==> exists n: nat :: FailsAt(fs, found.value, n))
  {
    Archive.ExtractUndoesAppend(sectors, at, end, files);
    var found := Archive.Stripped(files);
    hide Archive.Listing, Archive.ArchiveAt, Ustar.AllZeros;
    Panics(fs, found);
    if StoreAll(fs, found).Some? {
      AllStored(fs, found);
      hide Inv, Holds, BytesOf, Find, StoreAll, Ustar.Strip;
      forall i | 0 <= i < |files|
        ensures Holds(StoreAll(fs, found).value, Ustar.Strip(files[i].name), BytesOf(files[i].data))
      {
        assert found[i] == Archive.File(Ustar.Strip(files[i].name), files[i].data);
      }
    }
  }

  lemma {:induction false} Panics(fs: FS, files: seq<Archive.File>)
    requires Inv(fs)
    ensures StoreAll(fs, files) == None <==> exists n: nat :: FailsAt(fs, files, n)
    decreases |files|
  {
    assert |fs.blocks| == |fs.used|;
    if files != [] {
      var bytes := BytesOf(files[0].data);
      StoreHolds(fs, files[0].name, bytes);
      hide Store, Holds, CanStore, BytesOf, Find;
      FailsFirst(fs, files);
      if Store(fs, files[0].name, bytes).Some? {
        var g := Store(fs, files[0].name, bytes).value;
        assert |g.blocks| == |g.used|;
        Panics(g, files[1..]);
        forall n: nat ensures FailsAt(fs, files, n + 1) <==> FailsAt(g, files[1..], n) {
          FailsLater(fs, g, files, n);
        }
        if n: nat :| FailsAt(fs, files, n) {
          assert n > 0 && FailsAt(g, files[1..], n - 1);
        }
        if n: nat :| FailsAt(g, files[1..], n) {
          assert FailsAt(fs, files, n + 1);
        }
      } else {
        assert FailsAt(fs, files, 0);
      }
    }
  }

  lemma FailsFirst(fs: FS, files: seq<Archive.File>)
    requires |fs.blocks| == |fs.used| && files != []
    ensures FailsAt(fs, files, 0) <==> !CanStore(fs, files[0].name, |files[0].data|)
  {
    assert StoreAll(fs, files[..0]) == Some(fs);
  }

  lemma FailsLater(fs: FS, g: FS, files: seq<Archive.File>, n: nat)
    requires |fs.blocks| == |fs.used| && |g.blocks| == |g.used| && files != []
    requires Store(fs, files[0].name, BytesOf(files[0].data)) == Some(g)
    ensures FailsAt(fs, files, n + 1) <==> FailsAt(g, files[1..], n)
  {
    if n + 1 < |files| {
      assert files[..n + 1][0] == files[0] && files[..n + 1][1..] == files[1..][..n];
    }
  }
}
