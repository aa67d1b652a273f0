/** The library's entry points over one archive. The file descriptor becomes a
    Reader: the archive's bytes, which never change, and the descriptor's
    offset, which read(2) and lseek(2) move. Each method is proved against the
    functions of module TarScan. */
module TarLib {
  import opened TarFormat
  import opened TarScan

  /** A header buffer as a caller declares it, before anything is read into it. */
  function BlankHeader(): (h: Header)
    ensures h.WellFormed()
  {
    Decode(seq(BLOCKSIZE, _ => 0))
  }

  /** strncpy-like copy of the C string in the first n bytes of `src` into
      `dst`, followed by a NUL; the rest of `dst` is left alone. */
  method CopyCString(src: seq<byte>, n: nat, dst: array<byte>)
    requires n <= |src| && n < dst.Length
    modifies dst
    ensures var c := CString(src, n);
      && dst[..|c|] == c && dst[|c|] == NUL
      && dst[|c| + 1..] == old(dst[|c| + 1..])
  {
    var i := 0;
    while i < n && src[i] != NUL
      invariant 0 <= i <= n
      invariant forall k :: 0 <= k < i ==> src[k] != NUL && dst[k] == src[k]
      invariant dst[i..] == old(dst[i..])
    {
      dst[i] := src[i];
      i := i + 1;
    }
    dst[i] := NUL;
    CStringOfPrefix(src, n, i);
    assert dst[..i] == src[..i];
    assert dst[i + 1..] == old(dst[i + 1..]) by {
      forall k | i + 1 <= k < dst.Length ensures dst[k] == old(dst[k]) {
        assert old(dst[i..])[k - i] == old(dst[k]);
      }
    }
  }

  /** Offering one more name to a listing capped at `capacity` keeps it the
      first names offered. */
  lemma ListedStep(seen: seq<seq<byte>>, listed: seq<seq<byte>>, name: seq<byte>, capacity: nat)
    requires listed == seen[..Min(capacity, |seen|)]
    ensures (if |listed| < capacity then listed + [name] else listed) == (seen + [name])[..Min(capacity, |seen| + 1)]
  {
    if |listed| < capacity {
      assert (seen + [name])[..|listed| + 1] == seen[..|listed|] + [name];
    } else {
      assert (seen + [name])[..|listed|] == seen[..|listed|];
    }
  }

  /** memcpy of `src` to the front of `dst`. */
  method CopyInto<T>(src: seq<T>, dst: array<T>)
    requires |src| <= dst.Length
    modifies dst
    ensures dst[..|src|] == src && dst[|src|..] == old(dst[|src|..])
  {
    var i := 0;
    while i < |src|
      invariant 0 <= i <= |src|
      invariant dst[..i] == src[..i]
      invariant dst[i..] == old(dst[i..])
    {
      dst[i] := src[i];
      i := i + 1;
    }
  }

  class Reader {
    const archive: seq<byte>
    var pos: nat

    constructor(archive: seq<byte>)
      ensures this.archive == archive && pos == 0
    {
      this.archive := archive;
      pos := 0;
    }

    /** next_header: read one block into the buffer; a short read gives -2 and
        leaves the partial bytes at the front of the buffer; otherwise skip the
        data region, its size parsed in base 10 and rounded up to whole blocks,
        and return the new offset. */
    method NextHeader(buf: Header) returns (ret: int, header: Header)
      requires buf.WellFormed()
      modifies this
      ensures header.WellFormed()
      ensures HasHeader(archive, old(pos)) ==>
        header == HeaderAt(archive, old(pos)) && pos == NextPos(archive, old(pos)) && ret == pos
      ensures !HasHeader(archive, old(pos)) ==>
        var got := ReadBytes(archive, old(pos), BLOCKSIZE);
        ret == -2 && pos == old(pos) + |got| && header == Decode(got + Encode(buf)[|got|..])
    {
      var got := ReadBytes(archive, pos, BLOCKSIZE);
      header := Decode(got + Encode(buf)[|got|..]);
      pos := pos + |got|;
      if |got| < BLOCKSIZE {
        return -2, header;
      }
      assert got + Encode(buf)[|got|..] == got;
      var size := ParseNumber(header.size, NEXT_HEADER_BASE);
      var skipblock := (size + BLOCKSIZE - 1) / BLOCKSIZE;
      pos := pos + skipblock * BLOCKSIZE;
      ret := pos;
    }

    /** go_back_start: rewind to the first byte. */
    method GoBackStart() returns (off: nat)
      modifies this
      ensures pos == 0 && off == 0
    {
      pos := 0;
      off := pos;
    }

    /** check_archive as written: rewind, then test the magic and then the
        version of each header read, stopping at the first failure. The
        result does not depend on where the cursor was. */
    method CheckArchive() returns (r: int)
      modifies this
      ensures r == CheckFrom(archive, 0)
      ensures pos == ScanEnd(archive, CheckFailFrom(archive, 0))
    {
      var _ := GoBackStart();
      var header := BlankHeader();
      ghost var at: nat := pos;
      var ret;
      ret, header := NextHeader(header);
      while ret > 0
        invariant header.WellFormed()
        invariant ret > 0 ==> HasHeader(archive, at) && header == HeaderAt(archive, at) && pos == NextPos(archive, at)
        invariant ret <= 0 ==> !HasHeader(archive, at) && pos == at + Min(BLOCKSIZE, Remaining(archive, at))
        invariant CheckFailFrom(archive, 0) == CheckFailFrom(archive, at)
        invariant EndOfWalk(archive, 0) == EndOfWalk(archive, at)
        decreases Remaining(archive, at)
      {
        MagicOkIff(header.magic);
        VersionOkIff(header.version);
        if !StrnEqual(header.magic, TMAGIC, TMAGLEN) {
          return -1;
        }
        if !StrnEqual(header.version, TVERSION, TVERSLEN) {
          return -2;
        }
        at := pos;
        ret, header := NextHeader(header);
      }
      return 0;
    }

    /** exists: rewind, then compare the 100-byte name field of each header
        read with `path`; 1 at the first match, 0 once the headers run out. */
    method Exists(path: seq<byte>) returns (r: int)
      modifies this
      ensures r == 1 <==> FindFrom(archive, 0, path).Some?
      ensures r == 0 <==> FindFrom(archive, 0, path).None?
      ensures pos == ScanEnd(archive, FindFrom(archive, 0, path))
    {
      var _ := GoBackStart();
      var header := BlankHeader();
      while true
        invariant header.WellFormed()
        invariant FindFrom(archive, 0, path) == FindFrom(archive, pos, path)
        invariant EndOfWalk(archive, 0) == EndOfWalk(archive, pos)
        decreases Remaining(archive, pos)
      {
        ghost var at: nat := pos;
        var err;
        err, header := NextHeader(header);
        if err == -2 {
          break;
        }
        if StrnEqual(header.name, path, MAX_PATH_SIZE) {
          return 1;
        }
      }
      return 0;
    }

    /** get_header_type: 0 when no entry is at `path`; otherwise the code of the
        first matching entry's kind (1 file, 2 directory, 3 symlink), with
        that entry's header in `header`. */
    method GetHeaderType(path: seq<byte>, buf: Header) returns (t: int, header: Header)
      requires buf.WellFormed()
      modifies this
      ensures header.WellFormed()
      ensures t == EntryTypeCode(archive, path)
      ensures t != 0 ==> header == HeaderAt(archive, FindFrom(archive, 0, path).value)
      ensures pos == ScanEnd(archive, FindFrom(archive, 0, path))
    {
      var _ := GoBackStart();
      header := buf;
      while true
        invariant header.WellFormed()
        invariant FindFrom(archive, 0, path) == FindFrom(archive, pos, path)
        invariant EndOfWalk(archive, 0) == EndOfWalk(archive, pos)
        decreases Remaining(archive, pos)
      {
        ghost var at: nat := pos;
        var err;
        err, header := NextHeader(header);
        if err == -2 {
          return 0, header;
        }
        if StrnEqual(header.name, path, MAX_PATH_SIZE) {
          return TypeCode(KindOf(header.typeflag)), header;
        }
      }
    }

    /** is_dir: non-zero exactly when the entry at `path` is a directory. */
    method IsDir(path: seq<byte>) returns (r: int)
      modifies this
      ensures r != 0 <==> FindFrom(archive, 0, path).Some? && KindAt(archive, FindFrom(archive, 0, path).value) == Directory
      ensures pos == ScanEnd(archive, FindFrom(archive, 0, path))
    {
      var t, _ := GetHeaderType(path, BlankHeader());
      r := if t == 2 then 1 else 0;
    }

    /** is_file: non-zero exactly when the entry at `path` is a file. */
    method IsFile(path: seq<byte>) returns (r: int)
      modifies this
      ensures r != 0 <==> FindFrom(archive, 0, path).Some? && KindAt(archive, FindFrom(archive, 0, path).value) == File
      ensures pos == ScanEnd(archive, FindFrom(archive, 0, path))
    {
      var t, _ := GetHeaderType(path, BlankHeader());
      r := if t == 1 then 1 else 0;
    }

    /** is_symlink: non-zero exactly when the entry at `path` is a symlink. */
    method IsSymlink(path: seq<byte>) returns (r: int)
      modifies this
      ensures r != 0 <==> FindFrom(archive, 0, path).Some? && KindAt(archive, FindFrom(archive, 0, path).value) == Symlink
      ensures pos == ScanEnd(archive, FindFrom(archive, 0, path))
    {
      var t, _ := GetHeaderType(path, BlankHeader());
      r := if t == 3 then 1 else 0;
    }

    /** resolve_symlink: when the entry at `symlinkPath` is a symlink, copy its
        linkname, NUL-terminated, into `resolved` and return 0; otherwise
        return -1 and leave `resolved` alone. Only the one hop is taken: what
        the target is does not matter. */
    method ResolveSymlink(symlinkPath: seq<byte>, resolved: array<byte>) returns (r: int)
      requires resolved.Length > MAX_PATH_SIZE
      modifies this, resolved
      ensures r == 0 || r == -1
      ensures r == 0 <==> FindFrom(archive, 0, symlinkPath).Some? && KindAt(archive, FindFrom(archive, 0, symlinkPath).value) == Symlink
      ensures r == 0 ==>
        var target := LinkTarget(archive, FindFrom(archive, 0, symlinkPath).value);
        && resolved[..|target|] == target && resolved[|target|] == NUL
        && resolved[|target| + 1..] == old(resolved[|target| + 1..])
      ensures r != 0 ==> resolved[..] == old(resolved[..])
      ensures pos == ScanEnd(archive, FindFrom(archive, 0, symlinkPath))
    {
      var t, header := GetHeaderType(symlinkPath, BlankHeader());
      if t != 3 {
        return -1;
      }
      CopyCString(header.linkname, MAX_PATH_SIZE, resolved);
      r := 0;
    }

    /** seek_to_file_data: find the entry whose name is the header's name and
        put the cursor `offset` bytes into its data region (0); -1 when no
        entry has that name. */
    method SeekToFileData(header: Header, offset: nat) returns (r: int)
      requires header.WellFormed()
      modifies this
      ensures r == 0 || r == -1
      ensures r == 0 <==> FindFrom(archive, 0, header.name).Some?
      ensures r == 0 ==> pos == FindFrom(archive, 0, header.name).value + BLOCKSIZE + offset
      ensures r != 0 ==> pos == EndOfWalk(archive, 0)
    {
      var t, found := GetHeaderType(header.name, header);
      if t == 0 {
        return -1;
      }
      var at := FindFrom(archive, 0, header.name).value;
      pos := at + BLOCKSIZE + offset;
      r := 0;
    }

    /** list: when `path` names a directory, or a symlink to one, put the names
        of the entries directly inside it, in header order, into `entries` up
        to `capacity` of them, and return 1 with the count written; otherwise
        return 0 with a count of 0. */
    method List(path: seq<byte>, entries: array<seq<byte>>, capacity: nat) returns (r: int, count: nat)
      requires capacity <= entries.Length
      modifies this, entries
      ensures ListedDir(archive, path).None? ==>
        r == 0 && count == 0 && entries[..] == old(entries[..]) && pos == old(pos)
      ensures ListedDir(archive, path).Some? ==>
        var children := ChildrenFrom(archive, 0, ListedDir(archive, path).value);
        && r == 1 && count == Min(capacity, |children|)
        && entries[..count] == children[..count]
        && entries[count..] == old(entries[count..])
      ensures ListedDir(archive, path).Some? ==> pos == EndOfWalk(archive, 0)
    {
      var saved := pos;
      var dir := ResolveListedDir(path);
      if dir.None? {
        pos := saved;
        return 0, 0;
      }
      var listed := CollectChildren(dir.value, capacity);
      CopyInto(listed, entries);
      count := |listed|;
      r := 1;
    }

    /** One pass over the archive from the start, collecting, up to `capacity`
        of them, the names of the entries directly inside `d`. */
    method CollectChildren(d: seq<byte>, capacity: nat) returns (listed: seq<seq<byte>>)
      modifies this
      ensures listed == ChildrenFrom(archive, 0, d)[..Min(capacity, |ChildrenFrom(archive, 0, d)|)]
      ensures pos == EndOfWalk(archive, 0)
    {
      var _ := GoBackStart();
      ghost var seen: seq<seq<byte>> := [];
      listed := [];
      assert seen + ChildrenFrom(archive, pos, d) == ChildrenFrom(archive, 0, d);
      while true
        invariant Collecting(d, capacity, seen, listed)
        decreases Remaining(archive, pos)
      {
        var more;
        more, seen, listed := CollectStep(d, capacity, seen, listed);
        if !more {
          break;
        }
      }
    }

    /** The listing scan so far: `seen` holds, in order, the children of `d`
        in the headers before the cursor, and `listed` the first `capacity`
        of them. */
    ghost predicate Collecting(d: seq<byte>, capacity: nat, seen: seq<seq<byte>>, listed: seq<seq<byte>>)
      reads this
    {
      && ChildrenFrom(archive, 0, d) == seen + ChildrenFrom(archive, pos, d)
      && EndOfWalk(archive, 0) == EndOfWalk(archive, pos)
      && listed == seen[..Min(capacity, |seen|)]
    }

    /** One iteration of the listing scan: read the next header and, when its
        name lies directly inside `d`, offer that name to the listing. */
    method CollectStep(d: seq<byte>, capacity: nat, ghost seen: seq<seq<byte>>, listed: seq<seq<byte>>)
      returns (more: bool, ghost seen': seq<seq<byte>>, listed': seq<seq<byte>>)
      requires Collecting(d, capacity, seen, listed)
      modifies this
      ensures more ==> Collecting(d, capacity, seen', listed') && Remaining(archive, pos) < old(Remaining(archive, pos))
      ensures !more ==> listed' == ChildrenFrom(archive, 0, d)[..Min(capacity, |ChildrenFrom(archive, 0, d)|)]
      ensures !more ==> pos == EndOfWalk(archive, 0)
    {
      var ok, at, name := ReadEntryName();
      seen', listed' := seen, listed;
      if !ok {
        return false, seen', listed';
      }
      ChildrenFromStep(archive, at, d, name);
      if IsImmediateChild(d, name) {
        assert seen + ([name] + ChildrenFrom(archive, pos, d)) == (seen + [name]) + ChildrenFrom(archive, pos, d);
        ListedStep(seen, listed, name, capacity);
        if |listed| < capacity {
          listed' := listed + [name];
        }
        seen' := seen + [name];
      }
      more := true;
    }

    /** next_header followed by reading the name field as a C string: the
        name of the entry at the cursor, or false on a short read. What a
        short read leaves in the header buffer is never looked at here. */
    method ReadEntryName() returns (ok: bool, ghost at: nat, name: seq<byte>)
      modifies this
      ensures at == old(pos)
      ensures ok <==> HasHeader(archive, at)
      ensures ok ==> name == NameAt(archive, at) && pos == NextPos(archive, at)
      ensures !ok ==> pos == EndOfWalk(archive, at)
    {
      at := pos;
      var err, header := NextHeader(BlankHeader());
      if err == -2 {
        return false, at, [];
      }
      name := CString(header.name, MAX_PATH_SIZE);
      ok := true;
    }

    /** The directory list() enumerates for `path`, found by lookups. */
    method ResolveListedDir(path: seq<byte>) returns (dir: Option<seq<byte>>)
      modifies this
      ensures dir == ListedDir(archive, path)
    {
      var t, header := GetHeaderType(path, BlankHeader());
      if t == 2 {
        return Some(CString(header.name, MAX_PATH_SIZE));
      } else if t != 3 {
        return None;
      }
      var target := WithSlash(CString(header.linkname, MAX_PATH_SIZE));
      var t2, header2 := GetHeaderType(target, header);
      if t2 == 2 {
        return Some(CString(header2.name, MAX_PATH_SIZE));
      }
      return None;
    }

    /** The header of the file read_file reads for `path`, found by lookups. */
    method ResolveFileEntry(path: seq<byte>) returns (found: bool, header: Header)
      modifies this
      ensures header.WellFormed()
      ensures found <==> FileEntry(archive, path).Some?
      ensures found ==> header == HeaderAt(archive, FileEntry(archive, path).value)
    {
      var t;
      t, header := GetHeaderType(path, BlankHeader());
      if t == 1 {
        return true, header;
      } else if t != 3 {
        return false, header;
      }
      var target := CString(header.linkname, MAX_PATH_SIZE);
      t, header := GetHeaderType(target, header);
      return t == 1, header;
    }

    /** read_file: -1 unless `path` resolves to a file; -2 when `offset` is not
        before its end; otherwise up to `len` bytes of the file from `offset`
        into `dest`, the count written, and the number of bytes still after
        them (0 once the end was reached). On failure the cursor is put back. */
    method ReadFile(path: seq<byte>, offset: nat, dest: array<byte>, len: nat) returns (r: int, written: nat)
      requires len <= dest.Length
      modifies this, dest
      ensures ReadSpec(archive, path, offset, len) == NotAFile ==>
        r == -1 && written == 0 && dest[..] == old(dest[..]) && pos == old(pos)
      ensures ReadSpec(archive, path, offset, len) == OffsetOutOfRange ==>
        r == -2 && written == 0 && dest[..] == old(dest[..]) && pos == old(pos)
      ensures ReadSpec(archive, path, offset, len).Read? ==>
        var o := ReadSpec(archive, path, offset, len);
        && r == o.remaining && written == |o.bytes|
        && dest[..written] == o.bytes && dest[written..] == old(dest[written..])
        && pos == FileEntry(archive, path).value + BLOCKSIZE + offset + written
    {
      var saved := pos;
      var found, header := ResolveFileEntry(path);
      if !found {
        pos := saved;
        return -1, 0;
      }
      FileEntryIsFound(archive, path);
      r, written := ReadEntry(FileEntry(archive, path).value, header, offset, dest, len);
      if r == -2 {
        pos := saved;
      }
    }

    /** The part of read_file after the lookup: the header of the entry at
        `at` is in hand, and looking up its name finds it again. */
    method ReadEntry(ghost at: nat, header: Header, offset: nat, dest: array<byte>, len: nat) returns (r: int, written: nat)
      requires len <= dest.Length
      requires HasHeader(archive, at) && header == HeaderAt(archive, at)
      requires FindFrom(archive, 0, header.name) == Some(at)
      modifies this, dest
      ensures ReadAt(archive, at, offset, len) == OffsetOutOfRange ==>
        r == -2 && written == 0 && dest[..] == old(dest[..])
      ensures ReadAt(archive, at, offset, len).Read? ==>
        var o := ReadAt(archive, at, offset, len);
        && r == o.remaining && written == |o.bytes|
        && dest[..written] == o.bytes && dest[written..] == old(dest[written..])
        && pos == at + BLOCKSIZE + offset + written
    {
      var size := TarInt(header.size);
      if offset >= size {
        return -2, 0;
      }
      var s := SeekToFileData(header, offset);
      assert ReadAt(archive, at, offset, len) == ReadRegion(archive, at + BLOCKSIZE, size, offset, len);
      written := ReadInto(dest, Min(len, size - offset));
      r := size - offset - written;
    }

    /** read(2) of up to `count` bytes at the cursor into the front of `dest`;
        the cursor moves past the bytes read. */
    method ReadInto(dest: array<byte>, count: nat) returns (n: nat)
      requires count <= dest.Length
      modifies this, dest
      ensures n == |ReadBytes(archive, old(pos), count)|
      ensures dest[..n] == ReadBytes(archive, old(pos), count) && dest[n..] == old(dest[n..])
      ensures pos == old(pos) + n
    {
      var got := ReadBytes(archive, pos, count);
      CopyInto(got, dest);
      pos := pos + |got|;
      n := |got|;
    }
  }
}
