/** Two places where lib_tar.c does not do what its header documents, each
    shown on a concrete input, next to the corrected behaviour. */
module TarFindings {
  import opened TarFormat
  import opened TarScan

  // ---------------------------------------------------------------------------
  // next_header parses the size field in base 10

  /** A size field as tar writes it: eleven zero-padded octal digits and a NUL. */
  function SizeField(n: nat): (f: seq<byte>)
    ensures |f| == 12
  {
    FormatDigits(n, 11, 8) + [NUL]
  }

  lemma {:induction false} PowMonotone(b: nat, e1: nat, e2: nat)
    requires b >= 1 && e1 <= e2
    decreases e2
    ensures Pow(b, e1) <= Pow(b, e2)
  {
    if e1 < e2 {
      PowMonotone(b, e1, e2 - 1);
    }
  }

  /** Zero, written with any number of digits, is the same run of '0's in every base. */
  lemma {:induction false} ZeroDigits(k: nat, b1: nat, b2: nat)
    requires 2 <= b1 <= 10 && 2 <= b2 <= 10
    ensures FormatDigits(0, k, b1) == FormatDigits(0, k, b2)
  {
    if k > 0 {
      ZeroDigits(k - 1, b1, b2);
    }
  }

  /** 512 in octal and 1000 in decimal are the same eleven characters, "00000001000". */
  lemma OctalSizeReadsAsDecimal()
    ensures FormatDigits(512, 11, 8) == FormatDigits(1000, 11, 10)
  {
    ZeroDigits(7, 8, 10);
    assert FormatDigits(1, 8, 8) == FormatDigits(0, 7, 8) + [49];
    assert FormatDigits(1, 8, 10) == FormatDigits(0, 7, 10) + [49];
    assert FormatDigits(8, 9, 8) == FormatDigits(1, 8, 8) + [48];
    assert FormatDigits(10, 9, 10) == FormatDigits(1, 8, 10) + [48];
    assert FormatDigits(64, 10, 8) == FormatDigits(8, 9, 8) + [48];
    assert FormatDigits(100, 10, 10) == FormatDigits(10, 9, 10) + [48];
  }

  /** The size field tar writes for 512 bytes reads as 512 in octal and as 1000 in decimal. */
  lemma SizeField512Parses(n: nat)
    requires n == 512
    ensures TarInt(SizeField(n)) == n
    ensures ParseNumber(SizeField(n), NEXT_HEADER_BASE) == 1000
  {
    assert Pow(8, 4) == 4096;
    assert Pow(10, 4) == 10000;
    PowMonotone(8, 4, 11);
    PowMonotone(10, 4, 11);
    ParseFormatted(512, 11, 8, [NUL]);
    OctalSizeReadsAsDecimal();
    ParseFormatted(1000, 11, 10, [NUL]);
  }

  /** As written: a header whose size field records 512 bytes (one data block)
      is followed by next_header skipping 1000 bytes rounded up, that is two
      data blocks, so the cursor lands one block past the next header. */
  lemma DecimalSizeSkipsTooFar(h: Header, n: nat)
    requires h.WellFormed() && n == 512 && h.size == SizeField(n)
    ensures TarInt(h.size) == n
    ensures EntrySpan(h.size, NEXT_HEADER_BASE) == 3 * BLOCKSIZE
    ensures EntrySpan(h.size, 8) == 2 * BLOCKSIZE
  {
    SizeField512Parses(n);
    SpanOf(h, NEXT_HEADER_BASE, 1000, 2);
    SpanOf(h, 8, 512, 1);
  }

  /** The span of a header whose size field parses to n, when n needs k data blocks. */
  lemma SpanOf(h: Header, base: nat, n: nat, k: nat)
    requires 2 <= base <= 10 && ParseNumber(h.size, base) == n
    requires k * BLOCKSIZE < n + BLOCKSIZE && n <= k * BLOCKSIZE
    ensures EntrySpan(h.size, base) == BLOCKSIZE + k * BLOCKSIZE
  {
    DivMod(n + BLOCKSIZE - 1, BLOCKSIZE);
  }

  /** Corrected: the skip after a full header read, with the size parsed as
      octal, the way TAR_INT and read_file parse it. */
  function OctalNextPos(data: seq<byte>, at: nat): (next: nat)
    requires HasHeader(data, at)
  {
    at + EntrySpan(SizeBytes(data, at), 8)
  }

  /** With the octal parse, a header whose size field tar wrote for n bytes
      spans itself plus exactly the whole blocks that hold those n bytes. */
  lemma OctalSpanCoversSize(h: Header, n: nat)
    requires h.WellFormed() && n < Pow(8, 11) && h.size == SizeField(n)
    ensures TarInt(h.size) == n
    ensures EntrySpan(h.size, 8) % BLOCKSIZE == 0
    ensures BLOCKSIZE + n <= EntrySpan(h.size, 8) < 2 * BLOCKSIZE + n
  {
    OctalSizeRoundTrip(n);
  }

  /** Hence, with the octal parse, the next header read comes right after the
      data blocks of the entry, which read_file sizes at those same n bytes. */
  lemma OctalSkipCoversData(data: seq<byte>, at: nat, n: nat)
    requires HasHeader(data, at) && n < Pow(8, 11)
    requires SizeBytes(data, at) == SizeField(n)
    ensures FileSize(data, at) == n
    ensures (OctalNextPos(data, at) - at) % BLOCKSIZE == 0
    ensures at + BLOCKSIZE + n <= OctalNextPos(data, at) < at + 2 * BLOCKSIZE + n
  {
    OctalSpanCoversSize(HeaderAt(data, at), n);
  }

  /** Corrected: a size tar wrote is read back as itself. */
  lemma OctalSizeRoundTrip(n: nat)
    requires n < Pow(8, 11)
    ensures TarInt(SizeField(n)) == n
  {
    ParseFormatted(n, 11, 8, [NUL]);
  }

  // ---------------------------------------------------------------------------
  // check_archive reads the end-of-archive blocks as headers

  /** As written: once the walk reaches an all-zero block, which every archive
      ends with, check_archive reports a bad magic value or an error found
      before it; it never reports success. */
  lemma CheckRejectsNullBlock(data: seq<byte>, i: nat)
    requires i < |Walk(data, 0)|
    requires IsNullBlock(data[Walk(data, 0)[i]..Walk(data, 0)[i] + BLOCKSIZE])
    ensures CheckFrom(data, 0) in {-1, -2}
  {
    var o := Walk(data, 0)[i];
    assert data[o..o + BLOCKSIZE][257] == 0;
    assert MagicBytes(data, o)[0] == data[o + 257];
    assert CheckVerdictAt(data, o) == -1;
    CheckFromIsFirstFailure(data, 0);
    CheckFromCodes(data, 0);
  }

  /** The two 512-byte marker blocks of an empty archive. */
  function EmptyArchive(): (data: seq<byte>)
    ensures |data| == 2 * BLOCKSIZE && IsNullBlock(data)
  {
    seq(2 * BLOCKSIZE, _ => 0)
  }

  /** As written, the empty archive is rejected with -1; as documented (and
      corrected), marker blocks are skipped and it is valid with 0 entries. */
  lemma EmptyArchiveVerdicts()
    ensures CheckFrom(EmptyArchive(), 0) == -1
    ensures ValidateFrom(EmptyArchive(), 0) == 0
  {
    var data := EmptyArchive();
    assert data[0..BLOCKSIZE] == seq(BLOCKSIZE, _ => 0);
    assert data[BLOCKSIZE..2 * BLOCKSIZE] == seq(BLOCKSIZE, _ => 0);
    var h := HeaderAt(data, 0);
    NullBlockFailsMagic(data[0..BLOCKSIZE]);
    assert DigitRun(h.size, NEXT_HEADER_BASE) == 0;
    assert NextPos(data, 0) == BLOCKSIZE;
    var h2 := HeaderAt(data, BLOCKSIZE);
    assert DigitRun(h2.size, NEXT_HEADER_BASE) == 0;
    assert NextPos(data, BLOCKSIZE) == 2 * BLOCKSIZE;
  }
}
