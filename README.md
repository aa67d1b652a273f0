# lib_tar: a verified model of a ustar archive reader

lib_tar is a small C library that reads POSIX ustar archives (the "ustar
Interchange Format" of the `pax` utility, IEEE Std 1003.1). An archive is a
sequence of 512-byte header blocks. Each header is followed by its data,
rounded up to whole blocks. The library walks the headers through a file
descriptor. It validates the archive, looks up entries by name, classifies
them (file, directory, symlink), resolves symlinks, lists directories and
reads file contents.

This project models that library in Dafny:

- `tar_format.dfy` (module `TarFormat`): the `tar_header_t` record and its
  512-byte layout, the format constants, `strncmp` over fixed-width fields,
  ASCII number fields with a base parameter (`TAR_INT` is base 8), the header
  checksum and the typeflag classification.
- `tar_scan.dfy` (module `TarScan`): what scanning an archive means, as
  functions of the archive's bytes:
  - the walk `next_header` performs from a cursor;
  - first-match lookup by name;
  - `check_archive` as the code does it and as its header documents it;
  - the immediate children of a directory;
  - the outcome of a file read.
- `tar_lib.dfy` (module `TarLib`): the library's entry points as methods
  of a `Reader` class.
  - The file descriptor becomes a constant byte sequence `archive` plus a
    cursor `pos`, which `read(2)` and `lseek(2)` move.
  - Every method is proved against the functions of `TarScan`.
  - Caller buffers (`resolved_path`, `entries`, `dest`) are arrays the
    methods write into.
- `tar_findings.dfy` (module `TarFindings`): two places where the code does
  not do what its header documents, each shown on a concrete input next to
  the corrected behaviour.

Implemented code is modelled as written. `next_header` parses the size field
in base 10, and the walk every scan uses keeps that parse.
`check_archive` tests only magic and version and never skips zero blocks.

`calculate_tar_checksum`, `get_header_type`, `resolve_symlink` and
`seek_to_file_data` are declared in lib_tar.h but not defined in lib_tar.c.
`is_dir`, `is_file`, `is_symlink`, `list` and `read_file` have stub bodies in
lib_tar.c that return 0. These nine operations are modelled from their
documentation comments and from the implementation notes in `list`.
`read_file` sizes a file with `TAR_INT`, i.e. in octal.

## Model

| member | source | states |
|---|---|---|
| TarFormat.Encode | lib_tar.h:10-29 | The definition of a `tar_header_t` as it sits in memory: its 17 fields laid end to end, always 512 bytes. LayoutFillsBlock, DecodeEncode and EncodeDecode prove things about it. |
| TarFormat.Decode | lib_tar.c:37 | The definition of reading a 512-byte block into `tar_header_t`: each field is the block's slice at the offset commented in lib_tar.h:12-28, and the result always has the C field widths. FieldsAtOffsets, DecodeEncode and EncodeDecode prove things about it. |
| TarFormat.LayoutFillsBlock | lib_tar.h:10-29 | The 17 fields start at the commented offsets, touch end to end from byte 0, and the last ends at BLOCKSIZE = 512. |
| TarFormat.FieldsAtOffsets | lib_tar.h:10-29 | Field k of the record read from a block is the block's slice at that field's offset and width. |
| TarFormat.DecodeEncode | lib_tar.h:10-29 | Laying out a record's fields and reading them back gives the same record. |
| TarFormat.EncodeDecode | lib_tar.h:10-29 | Reading a 512-byte block into the record and laying it out again gives the same bytes. |
| TarFormat.StrnEqual | lib_tar.c:74-77 | The definition of `strncmp(a, b, n) == 0` as the code uses it at lib_tar.c:74, 77 and 105: equal up to the first NUL common to both, or over n bytes. StrnEqualIsCStringEquality, MagicOkIff and VersionOkIff prove things about it. |
| TarFormat.StrnEqualIsCStringEquality | lib_tar.c:105 | strncmp over n bytes reports equality exactly when the two C strings, cut at n bytes, are equal. |
| TarFormat.MagicOkIff | lib_tar.c:74 | The 6-byte strncmp against TMAGIC accepts a 6-byte magic field exactly when it is "ustar" and a NUL. |
| TarFormat.VersionOkIff | lib_tar.c:77 | The 2-byte strncmp against TVERSION accepts a 2-byte version field exactly when it is "00". |
| TarFormat.ParseNumber | lib_tar.c:42 | The value read from a digit field is below base to the power of the length of its leading run of digits. |
| TarFormat.TarInt | lib_tar.h:45-46 | The definition of `TAR_INT`, the field's digits read as octal; the value is below 8 to the power of the number of leading octal digits. ParseFormatted and OctalSizeRoundTrip prove it reads back what a writer wrote. |
| TarFormat.ParseFormatted | lib_tar.h:45-46 | A field holding a number written in zero-padded digits of the base, then a non-digit, reads back as that number. |
| TarFormat.ChecksumOf | lib_tar.h:119-131 | The definition of calculate_tar_checksum's result: the block's byte sum with bytes 148-155 counted as spaces. CalculateTarChecksum is proved to compute it; ChecksumIsBlankedSum, ChecksumIgnoresChksumField and ChecksumBounds prove things about it. |
| TarFormat.ChecksumOk | lib_tar.h:154 | The definition of "a correct checksum": the chksum field, read as octal, equals the header's computed checksum. StampedChecksumVerifies proves that a header stamped with its own checksum passes it. |
| TarFormat.CalculateTarChecksum | lib_tar.h:119-131 | The loop returns the sum over the header's 512 bytes with each chksum byte counted as a space. |
| TarFormat.ChecksumIsBlankedSum | lib_tar.h:121-123 | The checksum is the plain byte sum of the block with bytes 148-155 overwritten by spaces. |
| TarFormat.ChecksumIgnoresChksumField | lib_tar.h:121-123 | Two blocks that differ only inside the chksum field have the same checksum. |
| TarFormat.ChecksumBounds | lib_tar.h:121-126 | The checksum lies between 8*32 and 504*255 + 8*32, so it fits six octal digits. |
| TarFormat.StampedChecksumVerifies | lib_tar.h:119-131 | Writing a header's computed checksum into its chksum field, as six octal digits, a NUL and a space, gives a header whose stored checksum reads back as its computed one. |
| TarFormat.KindOf | lib_tar.h:38-43 | Typeflag '5' is a directory and '2' a symlink, both exactly; '0' and NUL are regular files. |
| TarFormat.TypeCode | lib_tar.h:140-143 | Entry kinds map one to one onto the codes 1 (file), 2 (directory) and 3 (symlink). |
| TarFormat.NullBlockFailsMagic | lib_tar.c:73-75 | An all-zero block read as a header fails the magic comparison. |
| TarScan.ReadBytes | lib_tar.c:37-40 | read(2) at an offset returns min(count, bytes left) bytes, and they are the archive's bytes at that offset. |
| TarScan.HeaderAt | lib_tar.c:37 | The record read at an offset has the C field widths; its name, size, typeflag, linkname, magic and version are the archive bytes at offsets 0, 124, 156, 157, 257 and 263 from it. |
| TarScan.EntrySpan | lib_tar.c:42-44 | A header plus its data skip is a whole number of blocks, at least 512 + size and below 1024 + size, size being the parsed size field. |
| TarScan.NextPos | lib_tar.c:42-45 | After a full header read the cursor is at least 512 further on, by a multiple of 512. |
| TarScan.Walk | lib_tar.c:73 | The headers repeated next_header calls read are full blocks, start at the cursor, lie at least 512 apart in increasing order and fit in the bytes left. |
| TarScan.EndOfWalk | lib_tar.c:37-40 | The short read that ends a walk leaves the cursor at or past the end of the archive. |
| TarScan.FindFrom | lib_tar.c:97-108 | A found offset is at or after the start of the scan and holds a header whose name field matches under a 100-byte strncmp. |
| TarScan.FindFromIsFirstMatch | lib_tar.c:97-108 | Lookup is a first-match linear search: it returns the earliest walked header whose name matches, and nothing when none does. |
| TarScan.FindOwnName | lib_tar.c:105 | Looking up the name field of the entry a lookup found finds that same entry again. |
| TarScan.EntryTypeCode | lib_tar.h:133-145 | The documented get_header_type code is 0 exactly when no entry matches, 2 exactly for a directory and 3 exactly for a symlink. |
| TarScan.CheckVerdict | lib_tar.c:74-79 | The per-header test gives -1 exactly when the magic is not "ustar\0", and -2 exactly when the magic passes but the version is not "00". |
| TarScan.CheckFailFrom | lib_tar.c:73-80 | Where the check loop stops is a full header whose verdict is non-zero. |
| TarScan.CheckFrom | lib_tar.c:70-83 | The definition of check_archive as written, once its loop reaches a header: 0 exactly when the loop runs out of headers without a failure, else the failing header's verdict. CheckFromIsFirstFailure, CheckFromCodes and CheckRejectsNullBlock prove things about it. |
| TarScan.CheckFromIsFirstFailure | lib_tar.c:73-82 | check_archive returns the verdict of the first walked header that fails magic or version, and 0 when every walked header passes. |
| TarScan.CheckFromCodes | lib_tar.c:70-83 | check_archive as written returns only 0, -1 or -2. |
| TarScan.DocVerdict | lib_tar.h:151-161 | The documented per-header verdict is one of 0, -1, -2, -3. The magic, version and checksum tests are made in that order, and all-zero blocks pass. |
| TarScan.ValidateFrom | lib_tar.h:148-163 | The definition of check_archive as documented: never below -3. ValidateFromContract proves it is the first failing code or the count of non-null headers; ValidateFromCodes proves when it is negative. |
| TarScan.ValidateFromContract | lib_tar.h:148-163 | The documented check_archive returns the code of the first walked header that fails the documented test; when all pass, it returns the number of non-null headers. |
| TarScan.ValidateFromCodes | lib_tar.h:158-161 | The documented result is at least -3, and it is negative exactly when some walked header fails the documented test. |
| TarScan.IsImmediateChild | lib_tar.h:211-221 | The definition of "an entry listed at `dir`": the name extends `dir` and has no '/' after it, except at its own end. SubdirectoryIsChild, GrandchildIsNotChild and ChildrenFromMembers prove things about it. |
| TarScan.SubdirectoryIsChild | lib_tar.h:214-221 | A sub-directory's own entry, with its trailing '/', counts as directly inside the directory ("dir/c/"). |
| TarScan.GrandchildIsNotChild | lib_tar.h:212-221 | Nothing below a sub-directory counts as directly inside the directory ("dir/c/d"). |
| TarScan.ChildrenFrom | lib_tar.h:210-221 | Every listed name lies directly inside the directory. |
| TarScan.ChildrenFromMembers | lib_tar.h:210-221 | A name is listed exactly when some walked header carries it and it lies directly inside the directory. |
| TarScan.ListedDir | lib_tar.h:223 | The definition of the directory list enumerates: the entry at the path if it is a directory, or the directory its symlink target names, with '/' appended (lib_tar.c:174-180); nothing otherwise. ListThroughSymlink and TarLib.Reader.ResolveListedDir prove things about it. |
| TarScan.WithSlash | lib_tar.c:180 | A symlink target used as a directory ends in '/': it is the target itself, or the target with '/' appended. |
| TarScan.ListThroughSymlink | lib_tar.c:175-176 | A symlink to a directory lists under the target's name with '/' appended, not under the symlink's own name. |
| TarScan.FileEntry | lib_tar.h:238 | What read_file resolves a path to (the entry itself, or the target of a symlink) is always a full header of a regular file. |
| TarScan.FileEntryIsFound | lib_tar.h:107-116 | Looking up the name in the header of the resolved file finds that same header, whether it was reached directly or through a symlink. |
| TarScan.ReadRegion | lib_tar.h:245-249 | An offset not before the end is out of range. Otherwise at most the buffer's size in bytes are taken from the region at the offset, and those bytes plus the bytes still unread add up to the rest of the file. On a stored region, exactly min(buffer, size - offset) bytes are taken. |
| TarScan.ReadSpec | lib_tar.h:245-249 | The definition of read_file's outcome: not a file exactly when the path resolves to no file entry; out of range exactly when it does and the offset is not before the file's end; otherwise ReadRegion over the file's data. TarLib.Reader.ReadFile is proved against it. |
| TarScan.ReadLastByte | lib_tar.h:246-249 | Reading at offset size - 1 yields the file's last byte and reports nothing left. |
| TarScan.ReadProgress | lib_tar.h:248-249 | A read that reports bytes left returned at least one byte, and reading again from just after it reports strictly fewer left. |
| TarScan.DrainFollowsReads | lib_tar.h:248-249 | Each chunk of a repeated read is what one read at its offset returns; the read reports nothing left exactly when the chunk reaches the end. |
| TarScan.DrainReassembles | lib_tar.h:248-249 | Reading a stored region again and again through any non-empty buffer, each time from just past the last chunk, reassembles its bytes from the starting offset on. |
| TarScan.DrainReassemblesFile | lib_tar.h:234-252 | Reading a stored file that way from offset 0 reassembles exactly its content. |
| TarLib.CopyCString | lib_tar.h:94-96 | The C string in the source is copied to the front of the buffer and NUL-terminated; the rest of the buffer is untouched. |
| TarLib.Reader.NextHeader | lib_tar.c:36-46 | On a full block: the block's record, the cursor moved past the data region with the size parsed in base 10, and that cursor returned. Otherwise -2, the cursor moved past the partial bytes, and those bytes over the front of the old buffer. |
| TarLib.Reader.GoBackStart | lib_tar.c:48-50 | The cursor is 0 and 0 is returned. |
| TarLib.Reader.CheckArchive | lib_tar.c:70-83 | Returns the first-failure verdict of the walk from offset 0, whatever the cursor was; the cursor ends after the failing header, or at the end of the walk. |
| TarLib.Reader.Exists | lib_tar.c:94-110 | Returns 1 exactly when some header's name matches and 0 exactly when none does; the cursor ends after the match, or at the end of the walk. |
| TarLib.Reader.GetHeaderType | lib_tar.h:133-145 | Returns the documented code of the first matching entry (0 when none), with that entry's header when there is one. |
| TarLib.Reader.IsDir | lib_tar.h:176-185 | Non-zero exactly when the entry at the path exists and is a directory. |
| TarLib.Reader.IsFile | lib_tar.h:187-196 | Non-zero exactly when the entry at the path exists and is a file. |
| TarLib.Reader.IsSymlink | lib_tar.h:198-207 | Non-zero exactly when the entry at the path exists and is a symlink. |
| TarLib.Reader.ResolveSymlink | lib_tar.h:84-105 | Returns 0 exactly when the entry at the path is a symlink, then writes its linkname, NUL-terminated, into the buffer. Otherwise returns -1 and leaves the buffer alone. One hop only. |
| TarLib.Reader.SeekToFileData | lib_tar.h:107-116 | Returns 0 exactly when an entry has the header's name, and then puts the cursor `offset` bytes into that entry's data; otherwise -1. |
| TarLib.Reader.List | lib_tar.h:210-232 | Without a directory at the path (absent, a file, or a symlink to a non-directory): 0, count 0, nothing written. Otherwise 1, and the first min(capacity, n) immediate children in header order are written and counted. |
| TarLib.Reader.CollectChildren | lib_tar.c:177-178 | One pass from offset 0 collects the first `capacity` immediate children of the directory, in header order. |
| TarLib.Reader.CollectStep | lib_tar.c:177-178 | One header of the listing scan: the listing stays the first `capacity` children seen so far, and the scan moves strictly forward; at the end the listing is complete and the cursor is at the end of the walk. |
| TarLib.Reader.ReadEntryName | lib_tar.c:36-46 | next_header, then the name as a C string: true exactly when a full header is at the cursor, then its name and the cursor after its data; otherwise the cursor at the end of the walk. |
| TarLib.Reader.ResolveListedDir | lib_tar.c:174-176 | Lookups find the directory a path names, directly or through one symlink, exactly as the listing specification defines it. |
| TarLib.Reader.ResolveFileEntry | lib_tar.h:238 | Lookups find the file a path names, directly or through one symlink, with its header. |
| TarLib.Reader.ReadFile | lib_tar.h:234-252 | -1 when the path does not resolve to a file and -2 when the offset is not before its end; both write nothing and keep the cursor. Otherwise: the bytes written are the file's bytes from the offset, at most the buffer's size; the return value is the count still unread; the cursor ends just after the bytes read. |
| TarLib.Reader.ReadEntry | lib_tar.h:245-249 | With the file's header in hand, the same outcome as ReadFile, as a function of the header's offset. |
| TarLib.Reader.ReadInto | lib_tar.h:240-243 | read(2) into the front of the buffer: the bytes at the cursor, their count, the rest of the buffer untouched, the cursor moved past them. |
| TarFindings.OctalSizeReadsAsDecimal | lib_tar.c:42 | The eleven digits a tar writer puts in the size field for 512 bytes are the same characters as 1000 written in decimal. |
| TarFindings.SizeField512Parses | lib_tar.c:42 | The size field for 512 bytes reads as 512 in octal and as 1000 in decimal. |
| TarFindings.DecimalSizeSkipsTooFar | lib_tar.c:42-44 | As written, a one-block entry of 512 bytes spans three blocks instead of two. |
| TarFindings.OctalSizeRoundTrip | lib_tar.h:45-46 | Any size a tar writer can put in the field reads back, in octal, as itself. |
| TarFindings.OctalSpanCoversSize | lib_tar.h:45-46 | With the octal parse, an entry spans its header plus exactly the whole blocks that hold its n bytes. |
| TarFindings.OctalSkipCoversData | lib_tar.h:45-46 | With the octal parse, the next header comes right after the data blocks of an entry that read_file sizes at the same n bytes. |
| TarFindings.CheckRejectsNullBlock | lib_tar.c:73-75 | As written, once the walk reaches an all-zero block, check_archive returns -1 or -2; it never reports success. |
| TarFindings.EmptyArchiveVerdicts | lib_tar.c:70-83 | The empty archive, two zero blocks, is rejected with -1 as written and is valid with 0 entries as documented. |

## Left out

- print_tar_header (lib_tar.c:4-28) only prints, so it is not modelled. tests.c is a test driver that opens files and prints results; it is not modelled either.
- File-descriptor failures are not modelled. Offsets are natural numbers and a seek past the end succeeds, as it does for lseek(2). So next_header never returns -1, and the `-1` branch of exists (lib_tar.c:101-104) and its printf cannot be reached; they are left out.
- TarFormat.ParseNumber: does not model all of strtol. A run of digits of the base is read within the field's 12 bytes; leading blanks and a sign are not skipped. So a field starting with '-' or a space reads as 0 rather than a negative or shifted value. That keeps every size non-negative, and every walk moves forward by at least one block. The source does not make that guarantee. `strtol(..., 10)` reads a size field "-1024" as -1024, so the C division at lib_tar.c:43 gives a skip of -1 block. The lseek at lib_tar.c:44 then puts the cursor back on the header just read. So on such a header, exists (lib_tar.c:97-108) loops forever unless the name matches. check_archive (lib_tar.c:73) loops forever when the header is past offset 0 and its magic and version pass. The termination of the model's walk is a property of the model, not of lib_tar.c. Overflow of `long` is not modelled.
- Header bytes are modelled as unsigned values 0..255, as the ustar standard defines them; C's signed `char` is not modelled.
- Hard links (typeflag '1'), the `prefix` field and GNU/pax extensions are not interpreted. Any typeflag other than '5' and '2' counts as a regular file, as get_header_type's documented codes leave no other choice.
- Concurrent use of one file descriptor is not modelled.
- The bodies of is_dir, is_file, is_symlink, list and read_file are stubs that return 0 (lib_tar.c:121-148, 173-182, 202-204). calculate_tar_checksum, get_header_type, resolve_symlink and seek_to_file_data have no body in lib_tar.c. The model gives all nine the behaviour their documentation comments describe, not the stubs' constant 0.
- TarLib.Reader.List and TarLib.Reader.ReadFile put the cursor back where it was when they fail. The documentation does not say where the cursor ends, and callers rewind before every scan, so nothing depends on this choice.
- TarLib.Reader.ReadEntryName: what a short read leaves in the header buffer is not carried into the listing scan, since the scan ends there and never looks at it.
- The header a caller passes to next_header is modelled by value. The method returns the filled record rather than writing through a pointer, so aliasing of that buffer is not modelled.

## Findings

| source | as written | input that shows it | evidently intended | confidence | as-written member | corrected member |
|---|---|---|---|---|---|---|
| lib_tar.c:42 | next_header reads the size field with strtol(..., 10) | One 512-byte file: its size field "00000001000" plus NUL reads as 1000, so next_header skips two data blocks and lands one block past the next header | Read the size as octal, as TAR_INT (lib_tar.h:46) and every ustar writer do | not executed | TarFindings.DecimalSizeSkipsTooFar | TarFindings.OctalSkipCoversData |
| lib_tar.c:73-80 | check_archive runs next_header and the magic/version tests on every full block, including the all-zero blocks that end every archive | The empty archive TarFindings.EmptyArchive (1024 zero bytes): check_archive returns -1 | Skip null headers, also test the checksum, and return the number of non-null headers (lib_tar.h:148-163) | not executed | TarFindings.CheckRejectsNullBlock | TarScan.ValidateFromContract |

The corrections are used where the model goes beyond the implemented code.
read_file's sizes (`TarScan.FileSize`) use the octal parse, and
`TarFindings.OctalSizeRoundTrip` proves that parse reads back what a writer
wrote. The documented check_archive is `TarScan.ValidateFrom`, whose contract
is `TarScan.ValidateFromContract`, on the same walk.
`TarFindings.EmptyArchiveVerdicts` shows both check_archive versions on one
input. The walk that next_header performs, and that every scan uses, stays
as written.
