/** The archive on the scratch device: the sector loops of fsutil_append() and fsutil_extract(). A panic
    is modelled as a failed result. */
module Archive {
  import opened Common
  import opened Ustar

  function Zero(): (r: string)
    ensures |r| == 512 && forall i :: 0 <= i < 512 ==> r[i] == '\0'
  {
    seq(512, _ => '\0')
  }

  type Sector = s: string | |s| == 512 witness Zero()

  datatype File = File(name: string, data: string)

  /** The names and sizes that fsutil_append() meets. */
  predicate Proper(f: File) {
    CString(f.name) && |f.data| < 0x8000_0000
  }

  function Blocks(size: nat): nat {
    (size + 511) / 512
  }

  /** Sector k of the contents, with zeros behind them. */
  function Chunk(data: string, k: nat): Sector {
    seq(512, i requires 0 <= i < 512 => if 512 * k + i < |data| then data[512 * k + i] else '\0')
  }

  /** The contents fill the sectors from at on. */
  ghost predicate DataAt(sectors: seq<Sector>, at: nat, data: string) {
    at + Blocks(|data|) <= |sectors| && forall k :: 0 <= k < Blocks(|data|) ==> sectors[at + k] == Chunk(data, k)
  }

  /** File f is archived at sector at. */
  ghost predicate EntryAt(sectors: seq<Sector>, at: nat, f: File) {
    && Proper(f) && |Strip(f.name)| <= 99
    && DataAt(sectors, at + 1, f.data) && sectors[at] == Made(f.name, Regular, |f.data|)
  }

  /** The files are archived one after the other from sector at up to sector end. */
  ghost predicate ArchiveAt(sectors: seq<Sector>, at: nat, end: nat, files: seq<File>)
    decreases |files|
  {
    if files == [] then at == end
    else EntryAt(sectors, at, files[0]) && ArchiveAt(sectors, at + 1 + Blocks(|files[0].data|), end, files[1..])
  }

  /** The size bytes that begin with sector at. */
  function BytesAt(sectors: seq<Sector>, at: nat, size: nat): (r: string)
    requires at + Blocks(size) <= |sectors|
    ensures |r| == size
  {
    seq(size, i requires 0 <= i < size => sectors[at + i / 512][i % 512])
  }

  /** The regular files that extraction finds from sector at on, or None if it panics. */
  function Listing(sectors: seq<Sector>, at: nat): Option<seq<File>>
    decreases |sectors| - at
  {
    if at >= |sectors| then None
    else match Reading(sectors[at])
      case Bad(_) => None
      case EndOfArchive => Some([])
      case Entry(name, kind, size) =>
        if kind == Directory then Listing(sectors, at + 1)
        else if size < 0 || at + 1 + Blocks(size) > |sectors| then None
        else match Listing(sectors, at + 1 + Blocks(size))
          case None => None
          case Some(rest) => Some([File(name, BytesAt(sectors, at + 1, size))] + rest)
  }

  // ----- extraction undoes archiving -----

  lemma ChunksBack(sectors: seq<Sector>, at: nat, data: string)
    requires DataAt(sectors, at, data)
    ensures BytesAt(sectors, at, |data|) == data
  {
    forall i | 0 <= i < |data| ensures sectors[at + i / 512][i % 512] == data[i] {
      assert sectors[at + i / 512] == Chunk(data, i / 512);
      assert 512 * (i / 512) + i % 512 == i;
    }
  }

  function Stripped(files: seq<File>): seq<File> {
    seq(|files|, i requires 0 <= i < |files| => File(Strip(files[i].name), files[i].data))
  }

  /** Whatever files were appended, extraction finds them in order, byte for byte, under their stripped
      names. */
  lemma {:induction false} ExtractUndoesAppend(sectors: seq<Sector>, at: nat, end: nat, files: seq<File>)
    requires ArchiveAt(sectors, at, end, files) && end < |sectors| && AllZeros(sectors[end])
    ensures Listing(sectors, at) == Some(Stripped(files))
    decreases |files|
  {
    hide Strip, Made, Reading, EntryAt, AllZeros, Listing, Stripped, Blocks;
    if files == [] {
      ListingEnd(sectors, at);
      NoneStripped();
    } else {
      ExtractUndoesAppend(sectors, at + 1 + Blocks(|files[0].data|), end, files[1..]);
      ListingCons(sectors, at, files);
    }
  }

  lemma NoneStripped()
    ensures Stripped([]) == []
  {
  }

  /** A sector of zeros ends the list. */
  lemma ListingEnd(sectors: seq<Sector>, at: nat)
    requires at < |sectors| && AllZeros(sectors[at])
    ensures Listing(sectors, at) == Some([])
  {
    hide Strip, Sum, Octal, CStr;
  }

  lemma ListingCons(sectors: seq<Sector>, at: nat, files: seq<File>)
    requires files != [] && EntryAt(sectors, at, files[0])
    requires Listing(sectors, at + 1 + Blocks(|files[0].data|)) == Some(Stripped(files[1..]))
    ensures Listing(sectors, at) == Some(Stripped(files))
  {
    hide Strip, Made, Reading, EntryAt, DataAt, BytesAt, CString, Listing, Blocks, Stripped;
    var f := files[0];
    EntryReads(sectors, at, f);
    ListingEntry(sectors, at, Strip(f.name), |f.data|);
    StrippedCons(files);
  }

  lemma StrippedCons(files: seq<File>)
    requires files != []
    ensures Stripped(files) == [File(Strip(files[0].name), files[0].data)] + Stripped(files[1..])
  {
    hide Strip;
  }

  lemma EntryReads(sectors: seq<Sector>, at: nat, f: File)
    requires EntryAt(sectors, at, f)
    ensures at + 1 + Blocks(|f.data|) <= |sectors|
    ensures Reading(sectors[at]) == Entry(Strip(f.name), Regular, |f.data|)
    ensures BytesAt(sectors, at + 1, |f.data|) == f.data
  {
    hide Strip, Made, Reading, CString;
    RoundTrip(f.name, Regular, |f.data|);
    ChunksBack(sectors, at + 1, f.data);
  }

  lemma ListingEntry(sectors: seq<Sector>, at: nat, name: string, size: nat)
    requires at + 1 + Blocks(size) <= |sectors| && Reading(sectors[at]) == Entry(name, Regular, size)
    requires Listing(sectors, at + 1 + Blocks(size)).Some?
    ensures Listing(sectors, at)
         == Some([File(name, BytesAt(sectors, at + 1, size))] + Listing(sectors, at + 1 + Blocks(size)).value)
  {
    hide Reading, BytesAt;
  }

  lemma EntryKept(s: seq<Sector>, t: seq<Sector>, at: nat, f: File)
    requires EntryAt(s, at, f) && |t| == |s|
    requires forall i :: 0 <= i < at + 1 + Blocks(|f.data|) ==> t[i] == s[i]
    ensures EntryAt(t, at, f)
  {
    hide Made, Strip, Chunk, Blocks, CString;
  }

  lemma {:induction false} ArchiveKept(s: seq<Sector>, t: seq<Sector>, at: nat, end: nat, files: seq<File>)
    requires ArchiveAt(s, at, end, files) && |t| == |s| && end <= |s|
    requires forall i :: 0 <= i < end ==> t[i] == s[i]
    ensures ArchiveAt(t, at, end, files) && at <= end
    decreases |files|
  {
    hide EntryAt, Blocks;
    if files != [] {
      var next := at + 1 + Blocks(|files[0].data|);
      ArchiveKept(s, t, next, end, files[1..]);
      EntryKept(s, t, at, files[0]);
    }
  }

  lemma {:induction false} ArchiveSnoc(s: seq<Sector>, at: nat, end: nat, files: seq<File>, f: File)
    requires ArchiveAt(s, at, end, files) && EntryAt(s, end, f)
    ensures ArchiveAt(s, at, end + 1 + Blocks(|f.data|), files + [f])
    decreases |files|
  {
    hide EntryAt, Blocks;
    var next := end + 1 + Blocks(|f.data|);
    if files == [] {
      assert files + [f] == [f] && [f][1..] == [];
      assert ArchiveAt(s, next, next, []);
    } else {
      ArchiveSnoc(s, at + 1 + Blocks(|files[0].data|), end, files[1..], f);
      assert (files + [f])[1..] == files[1..] + [f] && (files + [f])[0] == files[0];
    }
  }

  // ----- damaged headers and directories -----

  /** The sector of the k-th header. */
  function HeaderOf(at: nat, files: seq<File>, k: nat): (r: nat)
    requires k < |files|
    ensures r >= at && (k > 0 ==> r > at)
    decreases k
  {
    if k == 0 then at else HeaderOf(at + 1 + Blocks(|files[0].data|), files[1..], k - 1)
  }

  /** A byte of a header of the archive changed, outside its checksum field: extraction panics, whatever follows. */
  lemma {:induction false} DamagePanics(sectors: seq<Sector>, sectors': seq<Sector>, at: nat, end: nat, files: seq<File>,
                                        k: nat, j: nat, ch: char)
    requires ArchiveAt(sectors, at, end, files) && k < |files| && j < 512 && !InChecksum(j)
    requires HeaderOf(at, files, k) < |sectors| && ch != sectors[HeaderOf(at, files, k)][j]
    requires sectors' == sectors[HeaderOf(at, files, k) := sectors[HeaderOf(at, files, k)][j := ch]]
    ensures Listing(sectors', at) == None
    decreases k
  {
    hide Strip, Made, Reading, EntryAt, Blocks, BytesAt, InChecksum;
    EntryReads(sectors, at, files[0]);
    if k == 0 {
      OneByteChanged(sectors[at], j, ch);
    } else {
      var next := at + 1 + Blocks(|files[0].data|);
      DamagePanics(sectors, sectors', next, end, files[1..], k - 1, j, ch);
      assert sectors'[at] == sectors[at];
    }
  }

  /** A directory in the archive is passed over. */
  lemma DirectoriesIgnored(sectors: seq<Sector>, at: nat, name: string, size: int)
    requires at < |sectors| && CString(name) && InInt(size) && |Strip(name)| <= 99
    requires sectors[at] == Made(name, Directory, size)
    ensures Listing(sectors, at) == Listing(sectors, at + 1)
  {
    RoundTrip(name, Directory, size);
    hide Strip, Made, Reading, CString;
  }

  function Prepend(found: seq<File>, rest: Option<seq<File>>): Option<seq<File>> {
    if rest == None then None else Some(found + rest.value)
  }

  lemma PrependNil(found: seq<File>, rest: Option<seq<File>>)
    ensures Prepend([], rest) == rest && Prepend(found, Some([])) == Some(found)
  {
    assert found + [] == found;
    assert rest.Some? ==> [] + rest.value == rest.value;
  }

  lemma PrependStep(sectors: seq<Sector>, at: nat, name: string, size: nat, found: seq<File>)
    requires at + 1 + Blocks(size) <= |sectors| && Reading(sectors[at]) == Entry(name, Regular, size)
    ensures Prepend(found, Listing(sectors, at))
         == Prepend(found + [File(name, BytesAt(sectors, at + 1, size))], Listing(sectors, at + 1 + Blocks(size)))
  {
    hide Reading, BytesAt;
    var f := File(name, BytesAt(sectors, at + 1, size));
    if Listing(sectors, at + 1 + Blocks(size)).Some? {
      var rest := Listing(sectors, at + 1 + Blocks(size)).value;
      assert found + ([f] + rest) == found + [f] + rest;
    }
  }

  /** The scratch device with the two static sector counters. */
  class Scratch {
    var sectors: seq<Sector>
    var appendAt: nat
    var extractAt: nat
    ghost var files: seq<File>

    /** The device holds the files appended so far, then two sectors of zeros. */
    ghost predicate Valid()
      reads this
    {
      && ArchiveAt(sectors, 0, appendAt, files)
      && (files != [] ==> appendAt + 1 < |sectors| && AllZeros(sectors[appendAt]) && AllZeros(sectors[appendAt + 1]))
    }

    constructor (device: seq<Sector>)
      ensures Valid() && sectors == device && appendAt == extractAt == 0 && files == []
    {
      sectors, appendAt, extractAt, files := device, 0, 0, [];
    }

    /** The loop of fsutil_append() that copies the contents. */
    method CopyOut(data: string) returns (ok: bool)
      modifies this`sectors, this`appendAt
      ensures |sectors| == |old(sectors)|
      ensures ok == (data == "" || old(appendAt) + Blocks(|data|) <= |sectors|)
      ensures ok ==> appendAt == old(appendAt) + Blocks(|data|)
      ensures ok && data != "" ==> DataAt(sectors, old(appendAt), data)
      ensures ok ==> forall i :: 0 <= i < |sectors| && (i < old(appendAt) || appendAt <= i) ==> sectors[i] == old(sectors)[i]
    {
      var size, pos := |data|, 0;
      ghost var k := 0;
      while size > 0
        invariant 0 <= k <= Blocks(|data|) && pos == Min(512 * k, |data|) && size == |data| - pos
        invariant appendAt == old(appendAt) + k && |sectors| == |old(sectors)|
        invariant k > 0 ==> appendAt <= |sectors|
        invariant forall j :: 0 <= j < k && j < |sectors| - old(appendAt) ==> sectors[old(appendAt) + j] == Chunk(data, j)
        invariant forall i :: 0 <= i < |sectors| && (i < old(appendAt) || appendAt <= i) ==> sectors[i] == old(sectors)[i]
        decreases size
      {
        var chunk := if size > 512 then 512 else size;
        if appendAt >= |sectors| {
          return false;
        }
        var buffer := data[pos..pos + chunk] + seq(512 - chunk, _ => '\0');
        assert buffer == Chunk(data, k);
        sectors := sectors[appendAt := buffer];
        appendAt := appendAt + 1;
        pos := pos + chunk;
        size := size - chunk;
        k := k + 1;
      }
      ok := true;
    }

    /** fsutil_append(): panics exactly if the name is too long or the device too small, and otherwise adds
        one file to the archive and nothing else. */
    method Append(name: string, data: string) returns (ok: bool)
      requires Valid() && Proper(File(name, data))
      modifies this
      ensures ok == (|Strip(name)| <= 99 && old(appendAt) + Blocks(|data|) + 3 <= |sectors|)
      ensures |sectors| == |old(sectors)| && extractAt == old(extractAt)
      ensures ok ==> Valid() && files == old(files) + [File(name, data)]
      ensures ok ==> forall i :: 0 <= i < |sectors| && (i < old(appendAt) || appendAt + 2 <= i) ==> sectors[i] == old(sectors)[i]
    {
      hide Strip, Made, ArchiveAt, Chunk;
      ghost var before := sectors;
      ghost var start := appendAt;
      ghost var f := File(name, data);
      var buffer := new char[512];
      ok := MakeHeader(name, Regular, |data|, buffer);
      if !ok {
        return;
      }
      if appendAt >= |sectors| {
        return false;
      }
      sectors := sectors[appendAt := buffer[..]];
      appendAt := appendAt + 1;
      ghost var headed := sectors;
      ok := CopyOut(data);
      if !ok {
        return;
      }
      if appendAt + 1 >= |sectors| {
        return false;
      }
      ghost var copied := sectors;
      sectors := sectors[appendAt := Zero()][appendAt + 1 := Zero()];
      assert copied[start] == headed[start];
      assert DataAt(copied, start + 1, data);
      assert EntryAt(sectors, start, f) by {
        EntryKept(copied, sectors, start, f);
      }
      ArchiveKept(before, sectors, 0, start, files);
      ArchiveSnoc(sectors, 0, start, files, f);
      files := files + [f];
    }

    /** The loop of fsutil_extract() that copies the contents of one file. */
    method CopyIn(fileSize: nat) returns (r: Option<string>)
      requires extractAt <= |sectors|
      modifies this`extractAt
      ensures r == if old(extractAt) + Blocks(fileSize) <= |sectors|
                   then Some(BytesAt(sectors, old(extractAt), fileSize)) else None
      ensures r.Some? ==> extractAt == old(extractAt) + Blocks(fileSize)
    {
      var size, data := fileSize, "";
      ghost var k := 0;
      while size > 0
        invariant 0 <= k <= Blocks(fileSize) && |data| == Min(512 * k, fileSize) && size == fileSize - |data|
        invariant extractAt == old(extractAt) + k <= |sectors|
        invariant forall i :: 0 <= i < |data| ==> data[i] == sectors[old(extractAt) + i / 512][i % 512]
        decreases size
      {
        var chunk := if size > 512 then 512 else size;
        if extractAt >= |sectors| {
          return None;
        }
        var sector := sectors[extractAt];
        extractAt := extractAt + 1;
        assert forall i :: 512 * k <= i < 512 * k + chunk ==> i / 512 == k && i % 512 == i - 512 * k;
        data := data + sector[..chunk];
        size := size - chunk;
        k := k + 1;
      }
      assert data == BytesAt(sectors, old(extractAt), fileSize);
      r := Some(data);
    }

    /** fsutil_extract(): the regular files found, then the first two sectors erased. */
    method Extract() returns (r: Option<seq<File>>)
      modifies this`sectors, this`extractAt
      ensures r == if |old(sectors)| >= 2 then Listing(old(sectors), old(extractAt)) else None
      ensures r.Some? ==> sectors == old(sectors)[0 := Zero()][1 := Zero()] && Listing(sectors, 0) == Some([])
    {
      hide Reading, BytesAt, Blocks;
      var found := [];
      PrependNil([], Listing(sectors, extractAt));
      while true
        invariant sectors == old(sectors)
        invariant Prepend(found, Listing(sectors, extractAt)) == Listing(old(sectors), old(extractAt))
        decreases |sectors| - extractAt
      {
        if extractAt >= |sectors| {
          return None;
        }
        ghost var at := extractAt;
        var sector := sectors[extractAt];
        var header := new char[512](i requires 0 <= i < 512 => sector[i]);
        assert header[..] == sector;
        extractAt := extractAt + 1;
        var entry := ParseHeader(header);
        match entry {
          case Bad(_) =>
            return None;
          case EndOfArchive =>
            break;
          case Entry(name, kind, size) =>
            ReadingSafe(sector);
            if kind == Regular {
              var data := CopyIn(size);
              if data == None {
                return None;
              }
              PrependStep(sectors, at, name, size, found);
              found := found + [File(name, data.value)];
            }
        }
      }
      if |sectors| < 2 {
        return None;
      }
      PrependNil(found, None);
      r := Some(found);
      sectors := sectors[0 := Zero()][1 := Zero()];
      ListingEnd(sectors, 0);
    }
  }
}
