/** What scanning an archive means, stated as functions of the archive's bytes:
    the walk next_header performs from a cursor position, first-match lookup by
    name, the header checks of check_archive (as written and as documented),
    directory listing and file reads. The reader class in module TarLib is
    proved against these functions. */
module TarScan {
  import opened TarFormat

  datatype Option<T> = None | Some(value: T)

  function Min(a: nat, b: nat): nat {
    if a <= b then a else b
  }

  /** Bytes left in the archive from offset `at`; none once a seek went past the end. */
  function Remaining(data: seq<byte>, at: nat): nat {
    if at <= |data| then |data| - at else 0
  }

  /** read(2) of up to `count` bytes at offset `at`: short near the end, empty past it. */
  function ReadBytes(data: seq<byte>, at: nat, count: nat): (r: seq<byte>)
    ensures |r| == Min(count, Remaining(data, at))
    ensures |r| > 0 ==> at + |r| <= |data| && r == data[at..at + |r|]
  {
    if at >= |data| then []
    else if at + count <= |data| then data[at..at + count]
    else data[at..]
  }

  /** A full header block starts at `at`. */
  predicate HasHeader(data: seq<byte>, at: nat) {
    at + BLOCKSIZE <= |data|
  }

  /** The record read from the block at `at`. The fields the scans look at
      are also read straight from the archive, by the functions below. */
  function HeaderAt(data: seq<byte>, at: nat): (h: Header)
    requires HasHeader(data, at)
    ensures h.WellFormed()
    ensures h.name == NameBytes(data, at) && h.size == SizeBytes(data, at)
    ensures h.typeflag == TypeflagAt(data, at) && h.linkname == LinknameBytes(data, at)
    ensures h.magic == MagicBytes(data, at) && h.version == VersionBytes(data, at)
  {
    var b := data[at..at + BLOCKSIZE];
    SliceOfSlice(data, at, at + BLOCKSIZE, 0, 100);
    SliceOfSlice(data, at, at + BLOCKSIZE, 124, 136);
    SliceOfSlice(data, at, at + BLOCKSIZE, 157, 257);
    SliceOfSlice(data, at, at + BLOCKSIZE, 257, 263);
    SliceOfSlice(data, at, at + BLOCKSIZE, 263, 265);
    Decode(b)
  }

  lemma SliceOfSlice(s: seq<byte>, a: nat, b: nat, i: nat, j: nat)
    requires a <= b <= |s| && i <= j <= b - a
    ensures s[a..b][i..j] == s[a + i..a + j]
  {
    assert forall k :: 0 <= k < j - i ==> s[a..b][i..j][k] == s[a + i..a + j][k];
  }

  /** The name field of the header at `at` (offset 0, 100 bytes). */
  function NameBytes(data: seq<byte>, at: nat): (f: seq<byte>)
    requires HasHeader(data, at)
    ensures |f| == 100
  {
    data[at..at + 100]
  }

  /** The size field of the header at `at` (offset 124, 12 bytes). */
  function SizeBytes(data: seq<byte>, at: nat): (f: seq<byte>)
    requires HasHeader(data, at)
    ensures |f| == 12
  {
    data[at + 124..at + 136]
  }

  /** The typeflag of the header at `at` (offset 156). */
  function TypeflagAt(data: seq<byte>, at: nat): byte
    requires HasHeader(data, at)
  {
    data[at + 156]
  }

  /** The linkname field of the header at `at` (offset 157, 100 bytes). */
  function LinknameBytes(data: seq<byte>, at: nat): (f: seq<byte>)
    requires HasHeader(data, at)
    ensures |f| == 100
  {
    data[at + 157..at + 257]
  }

  /** The magic field of the header at `at` (offset 257, 6 bytes). */
  function MagicBytes(data: seq<byte>, at: nat): (f: seq<byte>)
    requires HasHeader(data, at)
    ensures |f| == 6
  {
    data[at + 257..at + 263]
  }

  /** The version field of the header at `at` (offset 263, 2 bytes). */
  function VersionBytes(data: seq<byte>, at: nat): (f: seq<byte>)
    requires HasHeader(data, at)
    ensures |f| == 2
  {
    data[at + 263..at + 265]
  }

  // ---------------------------------------------------------------------------
  // The cursor

  /** The bytes an entry occupies: one header block and its data region rounded
      up to whole blocks, the data size being the size field parsed in `base`. */
  function EntrySpan(sizeField: seq<byte>, base: nat): (span: nat)
    requires 2 <= base <= 10
    ensures span % BLOCKSIZE == 0
    ensures BLOCKSIZE + ParseNumber(sizeField, base) <= span < 2 * BLOCKSIZE + ParseNumber(sizeField, base)
  {
    var size := ParseNumber(sizeField, base);
    BLOCKSIZE + ((size + BLOCKSIZE - 1) / BLOCKSIZE) * BLOCKSIZE
  }

  /** next_header hands the size field to strtol with base 10. */
  const NEXT_HEADER_BASE: nat := 10

  /** Where next_header leaves the cursor after a full read at `at`. */
  function NextPos(data: seq<byte>, at: nat): (next: nat)
    requires HasHeader(data, at)
    ensures next >= at + BLOCKSIZE && (next - at) % BLOCKSIZE == 0
  {
    at + EntrySpan(SizeBytes(data, at), NEXT_HEADER_BASE)
  }

  /** The offsets of the headers that repeated next_header calls read from `at`
      until a read comes back short. */
  function Walk(data: seq<byte>, at: nat): (w: seq<nat>)
    decreases Remaining(data, at)
    ensures forall i :: 0 <= i < |w| ==> at <= w[i] && HasHeader(data, w[i])
    ensures forall i, j :: 0 <= i < j < |w| ==> w[i] + BLOCKSIZE <= w[j]
    ensures |w| > 0 ==> w[0] == at
    ensures |w| * BLOCKSIZE <= Remaining(data, at)
  {
    if !HasHeader(data, at) then [] else [at] + Walk(data, NextPos(data, at))
  }

  /** The cursor after the short read that ends a walk from `at`: never before
      the end of the archive. */
  function EndOfWalk(data: seq<byte>, at: nat): (e: nat)
    decreases Remaining(data, at)
    ensures at <= e && |data| <= e
  {
    if !HasHeader(data, at) then at + Min(BLOCKSIZE, Remaining(data, at))
    else EndOfWalk(data, NextPos(data, at))
  }

  /** Where a scan from the start leaves the cursor: just after the header it
      stopped at, or after the short read that ended the walk. */
  function ScanEnd(data: seq<byte>, hit: Option<nat>): nat {
    match hit
    case Some(at) => if HasHeader(data, at) then NextPos(data, at) else at
    case None => EndOfWalk(data, 0)
  }

  // ---------------------------------------------------------------------------
  // First along the walk

  /** The index of the first offset in w that satisfies p, or |w| when none does. */
  function FirstIndex(w: seq<nat>, p: nat -> bool): (k: nat)
    ensures k <= |w|
    ensures forall j :: 0 <= j < k ==> !p(w[j])
    ensures k < |w| ==> p(w[k])
  {
    if w == [] then 0 else if p(w[0]) then 0 else 1 + FirstIndex(w[1..], p)
  }

  /** The first offset in w that satisfies p. */
  function FirstWhere(w: seq<nat>, p: nat -> bool): Option<nat> {
    if FirstIndex(w, p) < |w| then Some(w[FirstIndex(w, p)]) else None
  }

  /** The value f gives the first offset in w where f is non-zero; 0 when f is
      zero all along w. */
  function FirstNonZero(w: seq<nat>, f: nat -> int): (v: int)
    ensures v == 0 <==> forall i :: 0 <= i < |w| ==> f(w[i]) == 0
    ensures v != 0 ==> exists i :: 0 <= i < |w| && f(w[i]) == v && forall j :: 0 <= j < i ==> f(w[j]) == 0
  {
    if w == [] then 0
    else if f(w[0]) != 0 then f(w[0])
    else
      var v := FirstNonZero(w[1..], f);
      assert forall i :: 0 < i < |w| ==> w[i] == w[1..][i - 1];
      if v != 0 then
        var i :| 0 <= i < |w[1..]| && f(w[1..][i]) == v && forall j :: 0 <= j < i ==> f(w[1..][j]) == 0;
        assert f(w[i + 1]) == v && forall j :: 0 <= j < i + 1 ==> f(w[j]) == 0;
        v
      else v
  }

  /** The first offset of a non-empty walk is its head if the head qualifies,
      and otherwise the first of the rest. */
  lemma FirstWhereCons(x: nat, rest: seq<nat>, p: nat -> bool)
    ensures FirstWhere([x] + rest, p) == if p(x) then Some(x) else FirstWhere(rest, p)
  {
    var w := [x] + rest;
    assert w[1..] == rest;
  }

  /** The value of a non-empty walk is its head's if non-zero, and otherwise that of the rest. */
  lemma FirstNonZeroCons(x: nat, rest: seq<nat>, f: nat -> int)
    ensures FirstNonZero([x] + rest, f) == if f(x) != 0 then f(x) else FirstNonZero(rest, f)
  {
    var w := [x] + rest;
    assert w[1..] == rest;
  }

  // ---------------------------------------------------------------------------
  // Lookup

  /** The 100-byte name field at `at` equals `path` under strncmp. */
  predicate NameMatchesAt(data: seq<byte>, at: nat, path: seq<byte>) {
    HasHeader(data, at) && StrnEqual(NameBytes(data, at), path, MAX_PATH_SIZE)
  }

  /** The first header from `at` on whose name matches `path`. */
  function FindFrom(data: seq<byte>, at: nat, path: seq<byte>): (r: Option<nat>)
    decreases Remaining(data, at)
    ensures r.Some? ==> at <= r.value && NameMatchesAt(data, r.value, path)
  {
    if !HasHeader(data, at) then None
    else if NameMatchesAt(data, at, path) then Some(at)
    else FindFrom(data, NextPos(data, at), path)
  }

  /** Lookup is a first-match linear search of the walk: the result is the
      earliest walked header whose name matches, or nothing if none does. */
  lemma {:induction false} FindFromIsFirstMatch(data: seq<byte>, at: nat, path: seq<byte>)
    decreases Remaining(data, at)
    ensures FindFrom(data, at, path) == FirstWhere(Walk(data, at), (o: nat) => NameMatchesAt(data, o, path))
  {
    var p := (o: nat) => NameMatchesAt(data, o, path);
    if HasHeader(data, at) {
      var next := NextPos(data, at);
      var w := Walk(data, at);
      assert w == [at] + Walk(data, next);
      FirstWhereCons(at, Walk(data, next), p);
      FindFromIsFirstMatch(data, next, path);
    }
  }

  /** Looking up the name of the entry a lookup found finds that same entry:
      strncmp equality is an equivalence, so no earlier header matches it. */
  lemma {:induction false} FindOwnName(data: seq<byte>, at: nat, path: seq<byte>)
    requires FindFrom(data, at, path).Some?
    decreases Remaining(data, at)
    ensures FindFrom(data, at, NameBytes(data, FindFrom(data, at, path).value)) == FindFrom(data, at, path)
  {
    var found := FindFrom(data, at, path).value;
    var name := NameBytes(data, found);
    StrnEqualIsCStringEquality(name, path, MAX_PATH_SIZE);
    StrnEqualIsCStringEquality(name, name, MAX_PATH_SIZE);
    if found != at {
      var h := NameBytes(data, at);
      StrnEqualIsCStringEquality(h, path, MAX_PATH_SIZE);
      StrnEqualIsCStringEquality(h, name, MAX_PATH_SIZE);
      FindOwnName(data, NextPos(data, at), path);
    }
  }

  /** The kind of the entry whose header is at `at`. */
  function KindAt(data: seq<byte>, at: nat): EntryKind
    requires HasHeader(data, at)
  {
    KindOf(TypeflagAt(data, at))
  }

  /** The name of the entry at `at` as a C string. */
  function NameAt(data: seq<byte>, at: nat): seq<byte>
    requires HasHeader(data, at)
  {
    CString(NameBytes(data, at), MAX_PATH_SIZE)
  }

  /** The target a symlink entry at `at` names: its linkname as a C string. */
  function LinkTarget(data: seq<byte>, at: nat): seq<byte>
    requires HasHeader(data, at)
  {
    CString(LinknameBytes(data, at), MAX_PATH_SIZE)
  }

  /** get_header_type's documented result: 0 when nothing is at `path`, else the
      code of the first matching entry's kind. */
  function EntryTypeCode(data: seq<byte>, path: seq<byte>): (c: int)
    ensures 0 <= c <= 3
    ensures c == 0 <==> FindFrom(data, 0, path).None?
    ensures c == 2 <==> FindFrom(data, 0, path).Some? && KindAt(data, FindFrom(data, 0, path).value) == Directory
    ensures c == 3 <==> FindFrom(data, 0, path).Some? && KindAt(data, FindFrom(data, 0, path).value) == Symlink
  {
    match FindFrom(data, 0, path)
    case None => 0
    case Some(at) => TypeCode(KindAt(data, at))
  }

  // ---------------------------------------------------------------------------
  // check_archive as the code does it

  /** The per-header test of check_archive: magic first, then version. */
  function CheckVerdict(data: seq<byte>, at: nat): (v: int)
    requires HasHeader(data, at)
    ensures v == -1 <==> MagicBytes(data, at) != TMAGIC
    ensures v == -2 <==> MagicBytes(data, at) == TMAGIC && VersionBytes(data, at) != TVERSION
    ensures v == 0 || v == -1 || v == -2
  {
    MagicOkIff(MagicBytes(data, at));
    VersionOkIff(VersionBytes(data, at));
    if !MagicOk(MagicBytes(data, at)) then -1
    else if !VersionOk(VersionBytes(data, at)) then -2
    else 0
  }

  /** The verdict at an offset, 0 where no header is. */
  function CheckVerdictAt(data: seq<byte>, at: nat): (v: int)
    ensures -2 <= v <= 0
  {
    if HasHeader(data, at) then CheckVerdict(data, at) else 0
  }

  /** The header at which check_archive's loop, having reached `at`, stops with
      an error: the first header from `at` on whose verdict is non-zero. */
  function CheckFailFrom(data: seq<byte>, at: nat): (r: Option<nat>)
    decreases Remaining(data, at)
    ensures r.Some? ==> at <= r.value && HasHeader(data, r.value) && CheckVerdict(data, r.value) != 0
  {
    if !HasHeader(data, at) then None
    else if CheckVerdict(data, at) != 0 then Some(at)
    else CheckFailFrom(data, NextPos(data, at))
  }

  /** check_archive's result when its loop reaches the header at `at`: 0
      exactly when the loop runs out of headers without a failure. */
  function CheckFrom(data: seq<byte>, at: nat): (r: int)
    ensures r == 0 <==> CheckFailFrom(data, at).None?
  {
    match CheckFailFrom(data, at)
    case None => 0
    case Some(o) => CheckVerdict(data, o)
  }

  /** check_archive returns the verdict of the first walked header whose magic
      or version is wrong, and 0 when every walked header passes. */
  lemma {:induction false} CheckFromIsFirstFailure(data: seq<byte>, at: nat)
    decreases Remaining(data, at)
    ensures CheckFailFrom(data, at) == FirstWhere(Walk(data, at), (o: nat) => CheckVerdictAt(data, o) != 0)
    ensures CheckFrom(data, at) == FirstNonZero(Walk(data, at), (o: nat) => CheckVerdictAt(data, o))
  {
    var p := (o: nat) => CheckVerdictAt(data, o) != 0;
    var f := (o: nat) => CheckVerdictAt(data, o);
    if HasHeader(data, at) {
      var next := NextPos(data, at);
      assert Walk(data, at) == [at] + Walk(data, next);
      FirstWhereCons(at, Walk(data, next), p);
      FirstNonZeroCons(at, Walk(data, next), f);
      CheckFromIsFirstFailure(data, next);
    }
  }

  /** check_archive yields 0, -1 or -2 and nothing else. */
  lemma CheckFromCodes(data: seq<byte>, at: nat)
    ensures CheckFrom(data, at) in {0, -1, -2}
  {
    CheckFromIsFirstFailure(data, at);
  }

  // ---------------------------------------------------------------------------
  // check_archive as lib_tar.h documents it

  /** The documented per-header test: all-zero blocks are skipped; any other
      header must have the magic, then the version, then a correct checksum. */
  function DocVerdict(data: seq<byte>, at: nat): (v: int)
    requires HasHeader(data, at)
    ensures v in {0, -1, -2, -3}
  {
    var h := HeaderAt(data, at);
    if IsNullBlock(data[at..at + BLOCKSIZE]) then 0
    else if !MagicOk(h.magic) then -1
    else if !VersionOk(h.version) then -2
    else if !ChecksumOk(h) then -3
    else 0
  }

  function DocVerdictAt(data: seq<byte>, at: nat): (v: int)
    ensures -3 <= v <= 0
  {
    if HasHeader(data, at) then DocVerdict(data, at) else 0
  }

  /** The header at `at` is a real entry, not an all-zero marker. */
  predicate NonNullAt(data: seq<byte>, at: nat) {
    HasHeader(data, at) && !IsNullBlock(data[at..at + BLOCKSIZE])
  }

  /** How many of the given header offsets hold non-null headers. */
  function NonNullCount(data: seq<byte>, w: seq<nat>): nat {
    if w == [] then 0 else (if NonNullAt(data, w[0]) then 1 else 0) + NonNullCount(data, w[1..])
  }

  /** The documented check_archive from the header at `at` on. */
  function ValidateFrom(data: seq<byte>, at: nat): (r: int)
    decreases Remaining(data, at)
    ensures -3 <= r
  {
    if !HasHeader(data, at) then 0
    else if DocVerdict(data, at) != 0 then DocVerdict(data, at)
    else
      var r := ValidateFrom(data, NextPos(data, at));
      if r < 0 then r else r + (if NonNullAt(data, at) then 1 else 0)
  }

  /** The documented contract: the code of the first walked header that fails
      the documented test, or, when all pass, the number of non-null headers. */
  lemma {:induction false} ValidateFromContract(data: seq<byte>, at: nat)
    decreases Remaining(data, at)
    ensures var v := FirstNonZero(Walk(data, at), (o: nat) => DocVerdictAt(data, o));
      ValidateFrom(data, at) == if v != 0 then v else NonNullCount(data, Walk(data, at))
  {
    if HasHeader(data, at) {
      var next := NextPos(data, at);
      assert Walk(data, at)[1..] == Walk(data, next);
      ValidateFromContract(data, next);
    }
  }

  /** The documented check_archive is negative, between -3 and -1, exactly when
      some walked header fails the documented test. */
  lemma ValidateFromCodes(data: seq<byte>, at: nat)
    ensures -3 <= ValidateFrom(data, at)
    ensures ValidateFrom(data, at) < 0 <==> exists i :: 0 <= i < |Walk(data, at)| && DocVerdictAt(data, Walk(data, at)[i]) != 0
  {
    ValidateFromContract(data, at);
    var w := Walk(data, at);
    var f := (o: nat) => DocVerdictAt(data, o);
    var v := FirstNonZero(w, f);
    if v != 0 {
      var i :| 0 <= i < |w| && f(w[i]) == v && forall j :: 0 <= j < i ==> f(w[j]) == 0;
      assert DocVerdictAt(data, w[i]) == v;
    }
  }

  // ---------------------------------------------------------------------------
  // Directories

  /** `name` lies directly in directory `dir` (a path ending in '/'): `dir` is a
      strict prefix and the rest holds no '/' except possibly a final one. */
  predicate IsImmediateChild(dir: seq<byte>, name: seq<byte>) {
    && |dir| < |name|
    && name[..|dir|] == dir
    && forall k :: |dir| <= k < |name| - 1 ==> name[k] != SLASH
  }

  /** A sub-directory's own entry is listed, with its trailing '/'. */
  lemma SubdirectoryIsChild(dir: seq<byte>, sub: seq<byte>)
    requires |sub| > 0 && forall k :: 0 <= k < |sub| ==> sub[k] != SLASH
    ensures IsImmediateChild(dir, dir + sub + [SLASH])
  {
    var name := dir + sub + [SLASH];
    assert name[..|dir|] == dir;
    forall k | |dir| <= k < |name| - 1 ensures name[k] != SLASH {
      assert name[k] == sub[k - |dir|];
    }
  }

  /** Nothing below a sub-directory is listed. */
  lemma GrandchildIsNotChild(dir: seq<byte>, sub: seq<byte>, rest: seq<byte>)
    requires |rest| > 0
    ensures !IsImmediateChild(dir, dir + sub + [SLASH] + rest)
  {
    var name := dir + sub + [SLASH] + rest;
    assert name[|dir| + |sub|] == SLASH;
  }

  /** The names, in header order, of the walked entries directly inside `dir`. */
  function ChildrenFrom(data: seq<byte>, at: nat, dir: seq<byte>): (cs: seq<seq<byte>>)
    decreases Remaining(data, at)
    ensures forall k :: 0 <= k < |cs| ==> IsImmediateChild(dir, cs[k])
  {
    if !HasHeader(data, at) then []
    else
      var rest := ChildrenFrom(data, NextPos(data, at), dir);
      if IsImmediateChild(dir, NameAt(data, at)) then [NameAt(data, at)] + rest else rest
  }

  /** One step of the listing scan: the header at `at` contributes its name
      when that lies directly in `dir`, then the scan goes on after its data. */
  lemma ChildrenFromStep(data: seq<byte>, at: nat, dir: seq<byte>, name: seq<byte>)
    requires HasHeader(data, at) && name == NameAt(data, at)
    ensures IsImmediateChild(dir, name) ==> ChildrenFrom(data, at, dir) == [name] + ChildrenFrom(data, NextPos(data, at), dir)
    ensures !IsImmediateChild(dir, name) ==> ChildrenFrom(data, at, dir) == ChildrenFrom(data, NextPos(data, at), dir)
  {
  }

  /** A name is listed exactly when some walked header carries it and it lies directly in `dir`. */
  lemma {:induction false} ChildrenFromMembers(data: seq<byte>, at: nat, dir: seq<byte>, c: seq<byte>)
    decreases Remaining(data, at)
    ensures c in ChildrenFrom(data, at, dir) ==> IsImmediateChild(dir, c)
    ensures c in ChildrenFrom(data, at, dir) ==>
      exists i :: 0 <= i < |Walk(data, at)| && NameAt(data, Walk(data, at)[i]) == c
    ensures IsImmediateChild(dir, c) && (exists i :: 0 <= i < |Walk(data, at)| && NameAt(data, Walk(data, at)[i]) == c) ==>
      c in ChildrenFrom(data, at, dir)
  {
    var w := Walk(data, at);
    if HasHeader(data, at) {
      var next := NextPos(data, at);
      var rest := Walk(data, next);
      var name := NameAt(data, at);
      assert w[1..] == rest;
      ChildrenFromMembers(data, next, dir, c);
      ChildrenFromStep(data, at, dir, name);
      var listed := c in ChildrenFrom(data, at, dir);
      var inRest := c in ChildrenFrom(data, next, dir);
      assert listed <==> (IsImmediateChild(dir, name) && c == name) || inRest;
      if listed {
        if IsImmediateChild(dir, name) && c == name {
          assert NameAt(data, w[0]) == c;
        } else {
          var k :| 0 <= k < |rest| && NameAt(data, rest[k]) == c;
          assert NameAt(data, w[k + 1]) == c;
        }
      }
      if IsImmediateChild(dir, c) && exists i :: 0 <= i < |w| && NameAt(data, w[i]) == c {
        var i :| 0 <= i < |w| && NameAt(data, w[i]) == c;
        if i > 0 {
          assert NameAt(data, rest[i - 1]) == c;
        }
      }
    } else {
      assert w == [] && ChildrenFrom(data, at, dir) == [];
    }
  }

  /** A symlink's target as a directory path: '/' appended unless already there. */
  function WithSlash(p: seq<byte>): (d: seq<byte>)
    ensures |d| > 0 && d[|d| - 1] == SLASH
    ensures d == p || d == p + [SLASH]
  {
    if |p| > 0 && p[|p| - 1] == SLASH then p else p + [SLASH]
  }

  /** list's effective directory for `path`: the name of the directory entry at
      `path`, or the name of the directory a symlink at `path` points to;
      nothing when the path is absent, a file, or a symlink to a non-directory. */
  function ListedDir(data: seq<byte>, path: seq<byte>): Option<seq<byte>> {
    match FindFrom(data, 0, path)
    case None => None
    case Some(at) =>
      match KindAt(data, at)
      case File => None
      case Directory => Some(NameAt(data, at))
      case Symlink =>
        match FindFrom(data, 0, WithSlash(LinkTarget(data, at)))
        case None => None
        case Some(t) => if KindAt(data, t) == Directory then Some(NameAt(data, t)) else None
  }

  /** A lookup by a path that fits the name field and holds no NUL finds an
      entry whose name is exactly that path. */
  lemma FoundNameIsPath(data: seq<byte>, at: nat, path: seq<byte>)
    requires FindFrom(data, at, path).Some?
    requires |path| <= MAX_PATH_SIZE && forall k :: 0 <= k < |path| ==> path[k] != NUL
    ensures NameAt(data, FindFrom(data, at, path).value) == path
  {
    var t := FindFrom(data, at, path).value;
    StrnEqualIsCStringEquality(NameBytes(data, t), path, MAX_PATH_SIZE);
    CStringOfPlain(path, MAX_PATH_SIZE, 0);
    assert path[0..] == path;
  }

  /** Appending '/' to a path without NUL gives a path without NUL. */
  lemma WithSlashHasNoNul(p: seq<byte>)
    requires forall k :: 0 <= k < |p| ==> p[k] != NUL
    ensures forall k :: 0 <= k < |WithSlash(p)| ==> WithSlash(p)[k] != NUL
  {
    var d := WithSlash(p);
    forall k | 0 <= k < |d| ensures d[k] != NUL {
      if k < |p| { assert d[k] == p[k]; }
    }
  }

  /** A symlink to a directory lists under the target's name with '/' appended,
      never under the symlink's own name. */
  lemma ListThroughSymlink(data: seq<byte>, path: seq<byte>)
    requires FindFrom(data, 0, path).Some?
    requires KindAt(data, FindFrom(data, 0, path).value) == Symlink
    requires var target := WithSlash(LinkTarget(data, FindFrom(data, 0, path).value));
      |target| <= MAX_PATH_SIZE &&
      FindFrom(data, 0, target).Some? && KindAt(data, FindFrom(data, 0, target).value) == Directory
    ensures ListedDir(data, path) == Some(WithSlash(LinkTarget(data, FindFrom(data, 0, path).value)))
  {
    var at := FindFrom(data, 0, path).value;
    var link := LinkTarget(data, at);
    assert forall k :: 0 <= k < |link| ==> link[k] != NUL;
    WithSlashHasNoNul(link);
    var target := WithSlash(link);
    var t := FindFrom(data, 0, target).value;
    FoundNameIsPath(data, 0, target);
    assert NameAt(data, t) == target;
    assert ListedDir(data, path) == Some(NameAt(data, t));
  }

  // ---------------------------------------------------------------------------
  // Files

  /** The header offset of the file read_file reads for `path`: the entry at
      `path` if it is a file, or the file a symlink at `path` points to. */
  function FileEntry(data: seq<byte>, path: seq<byte>): (r: Option<nat>)
    ensures r.Some? ==> HasHeader(data, r.value) && KindAt(data, r.value) == File
  {
    match FindFrom(data, 0, path)
    case None => None
    case Some(at) =>
      match KindAt(data, at)
      case File => Some(at)
      case Directory => None
      case Symlink =>
        match FindFrom(data, 0, LinkTarget(data, at))
        case None => None
        case Some(t) => if KindAt(data, t) == File then Some(t) else None
  }

  /** Looking up the name in the header of the file read_file resolves to finds
      that same header, whether it was reached directly or through a symlink. */
  lemma FileEntryIsFound(data: seq<byte>, path: seq<byte>)
    requires FileEntry(data, path).Some?
    ensures FindFrom(data, 0, NameBytes(data, FileEntry(data, path).value)) == FileEntry(data, path)
  {
    var at := FindFrom(data, 0, path).value;
    if KindAt(data, at) == File {
      FindOwnName(data, 0, path);
    } else {
      FindOwnName(data, 0, LinkTarget(data, at));
    }
  }

  /** A file's length: its size field as octal (TAR_INT). */
  function FileSize(data: seq<byte>, at: nat): nat
    requires HasHeader(data, at)
  {
    TarInt(SizeBytes(data, at))
  }

  /** The whole data region of the file at `at` lies inside the archive. */
  predicate FileStored(data: seq<byte>, at: nat) {
    HasHeader(data, at) && at + BLOCKSIZE + FileSize(data, at) <= |data|
  }

  /** The bytes of the file whose header is at `at`. */
  function FileContent(data: seq<byte>, at: nat): (c: seq<byte>)
    requires FileStored(data, at)
    ensures |c| == FileSize(data, at)
  {
    data[at + BLOCKSIZE..at + BLOCKSIZE + FileSize(data, at)]
  }

  datatype ReadOutcome = NotAFile | OffsetOutOfRange | Read(bytes: seq<byte>, remaining: nat)

  /** Reading a data region of `size` bytes that starts at `start`, from
      `offset` into a buffer of `capacity` bytes: out of range unless the
      offset lies before the end; otherwise at most `capacity` bytes taken
      from the region at the offset, and the count of bytes still after them. */
  function ReadRegion(data: seq<byte>, start: nat, size: nat, offset: nat, capacity: nat): (o: ReadOutcome)
    ensures o != NotAFile
    ensures o == OffsetOutOfRange <==> offset >= size
    ensures o.Read? ==>
      && |o.bytes| <= capacity
      && offset + |o.bytes| + o.remaining == size
      && (|o.bytes| > 0 ==>
            (start + offset + |o.bytes| <= |data| &&
             o.bytes == data[start + offset..start + offset + |o.bytes|]))
    ensures o.Read? && start + size <= |data| ==> |o.bytes| == Min(capacity, size - offset)
  {
    if offset >= size then OffsetOutOfRange
    else
      var got := ReadBytes(data, start + offset, Min(capacity, size - offset));
      Read(got, size - offset - |got|)
  }

  /** Reading the file whose header is at `at`. */
  function ReadAt(data: seq<byte>, at: nat, offset: nat, capacity: nat): ReadOutcome
    requires HasHeader(data, at)
  {
    ReadRegion(data, at + BLOCKSIZE, FileSize(data, at), offset, capacity)
  }

  /** read_file's documented outcome for `path` and a destination of `capacity` bytes. */
  function ReadSpec(data: seq<byte>, path: seq<byte>, offset: nat, capacity: nat): (o: ReadOutcome)
    ensures o == NotAFile <==> FileEntry(data, path).None?
    ensures o == OffsetOutOfRange <==> FileEntry(data, path).Some? && offset >= FileSize(data, FileEntry(data, path).value)
  {
    match FileEntry(data, path)
    case None => NotAFile
    case Some(at) => ReadAt(data, at, offset, capacity)
  }

  /** Reading a stored region at offset size-1 into a non-empty buffer yields
      its last byte and nothing left to read. */
  lemma ReadLastByte(data: seq<byte>, start: nat, size: nat, capacity: nat)
    requires start + size <= |data| && size > 0 && capacity >= 1
    ensures ReadRegion(data, start, size, size - 1, capacity) == Read([data[start..start + size][size - 1]], 0)
  {
  }

  /** On a stored region with a non-empty buffer, a read that leaves bytes
      unread returns at least one byte, and reading again from just after it
      leaves strictly fewer bytes unread. */
  lemma ReadProgress(data: seq<byte>, start: nat, size: nat, offset: nat, capacity: nat)
    requires start + size <= |data| && capacity > 0
    requires ReadRegion(data, start, size, offset, capacity).Read?
    requires ReadRegion(data, start, size, offset, capacity).remaining > 0
    ensures var o := ReadRegion(data, start, size, offset, capacity);
      |o.bytes| > 0 &&
      var o' := ReadRegion(data, start, size, offset + |o.bytes|, capacity);
      o'.Read? && o'.remaining < o.remaining
  {
  }

  /** The bytes a caller collects by reading again and again through a buffer
      of `capacity` bytes, each time from just past the previous chunk, until
      the end of a stored region of `size` bytes starting at `start`: the
      region cut into chunks of `capacity` bytes, the last one possibly shorter. */
  function Drain(data: seq<byte>, start: nat, size: nat, offset: nat, capacity: nat): seq<byte>
    requires start + size <= |data| && capacity > 0
    decreases size - offset
  {
    if offset >= size then []
    else
      var n := Min(capacity, size - offset);
      data[start + offset..start + offset + n] + Drain(data, start, size, offset + n, capacity)
  }

  /** Each chunk of a drain is what one read at its offset returns, and the
      drain goes on from just past it; the read reports nothing left exactly
      when that chunk reaches the end of the region. */
  lemma DrainFollowsReads(data: seq<byte>, start: nat, size: nat, offset: nat, capacity: nat)
    requires start + size <= |data| && capacity > 0 && offset < size
    ensures var o := ReadRegion(data, start, size, offset, capacity);
      && o.Read? && o.bytes != []
      && Drain(data, start, size, offset, capacity) == o.bytes + Drain(data, start, size, offset + |o.bytes|, capacity)
      && (o.remaining == 0 <==> offset + |o.bytes| == size)
  {
  }

  /** Draining a stored region through any non-empty buffer reassembles
      exactly the region's bytes from the starting offset on. */
  lemma {:induction false} DrainReassembles(data: seq<byte>, start: nat, size: nat, offset: nat, capacity: nat)
    requires start + size <= |data| && capacity > 0 && offset <= size
    decreases size - offset
    ensures Drain(data, start, size, offset, capacity) == data[start + offset..start + size]
  {
    if offset < size {
      var n := Min(capacity, size - offset);
      var tail := Drain(data, start, size, offset + n, capacity);
      assert Drain(data, start, size, offset, capacity) == data[start + offset..start + offset + n] + tail;
      DrainReassembles(data, start, size, offset + n, capacity);
      SliceSplit(data, start + offset, start + offset + n, start + size);
    }
  }

  /** A slice is its part up to any point inside it followed by the rest. */
  lemma SliceSplit(s: seq<byte>, i: nat, j: nat, k: nat)
    requires i <= j <= k <= |s|
    ensures s[i..k] == s[i..j] + s[j..k]
  {
  }

  /** Draining the file whose header is at `at` reassembles its content. */
  lemma DrainReassemblesFile(data: seq<byte>, at: nat, capacity: nat)
    requires FileStored(data, at) && capacity > 0
    ensures Drain(data, at + BLOCKSIZE, FileSize(data, at), 0, capacity) == FileContent(data, at)
  {
    DrainReassembles(data, at + BLOCKSIZE, FileSize(data, at), 0, capacity);
  }
}
