/** The ustar header block and the byte-level helpers of lib_tar.h:
    the record layout, the format constants, the C string comparison the
    library relies on, the ASCII number fields and the header checksum. */
module TarFormat {

  /** A header or data byte, unsigned as in the ustar standard. */
  type byte = x: int | 0 <= x < 256

  const BLOCKSIZE: nat := 512
  const MAX_PATH_SIZE: nat := 100

  /** "ustar" followed by a NUL, compared over TMAGLEN bytes. */
  const TMAGIC: seq<byte> := [117, 115, 116, 97, 114, 0]
  const TMAGLEN: nat := 6
  /** "00" with no NUL, compared over TVERSLEN bytes. */
  const TVERSION: seq<byte> := [48, 48]
  const TVERSLEN: nat := 2

  /** Values of the typeflag field. */
  const REGTYPE: byte := 48   // '0'
  const AREGTYPE: byte := 0   // '\0'
  const LNKTYPE: byte := 49   // '1'
  const SYMTYPE: byte := 50   // '2'
  const DIRTYPE: byte := 53   // '5'

  const NUL: byte := 0
  const SPACE: byte := 32
  const SLASH: byte := 47

  /** Field sizes of tar_header_t, in declaration order, and the byte offset of each field. */
  const FIELD_SIZES: seq<nat> := [100, 8, 8, 8, 12, 12, 8, 1, 100, 6, 2, 32, 32, 8, 8, 155, 12]
  const FIELD_OFFSETS: seq<nat> := [0, 100, 108, 116, 124, 136, 148, 156, 157, 257, 263, 265, 297, 329, 337, 345, 500]

  /** The offset and width of the chksum field. */
  const CHKSUM_OFFSET: nat := 148
  const CHKSUM_LEN: nat := 8

  // ---------------------------------------------------------------------------
  // The header record

  /** tar_header_t: every field is a fixed-width byte array except typeflag. */
  datatype Header = Header(
    name: seq<byte>, mode: seq<byte>, uid: seq<byte>, gid: seq<byte>,
    size: seq<byte>, mtime: seq<byte>, chksum: seq<byte>, typeflag: byte,
    linkname: seq<byte>, magic: seq<byte>, version: seq<byte>,
    uname: seq<byte>, gname: seq<byte>, devmajor: seq<byte>, devminor: seq<byte>,
    prefix: seq<byte>, padding: seq<byte>)
  {
    /** Field k of the record as bytes (typeflag as a one-byte array). */
    function Field(k: nat): seq<byte>
      requires k < |FIELD_SIZES|
    {
      match k
      case 0 => name
      case 1 => mode
      case 2 => uid
      case 3 => gid
      case 4 => size
      case 5 => mtime
      case 6 => chksum
      case 7 => [typeflag]
      case 8 => linkname
      case 9 => magic
      case 10 => version
      case 11 => uname
      case 12 => gname
      case 13 => devmajor
      case 14 => devminor
      case 15 => prefix
      case _ => padding
    }

    /** Every field has the width the C struct gives it. */
    predicate WellFormed() {
      && |name| == 100 && |mode| == 8 && |uid| == 8 && |gid| == 8
      && |size| == 12 && |mtime| == 12 && |chksum| == 8
      && |linkname| == 100 && |magic| == 6 && |version| == 2
      && |uname| == 32 && |gname| == 32 && |devmajor| == 8 && |devminor| == 8
      && |prefix| == 155 && |padding| == 12
    }
  }

  /** The struct's bytes in memory: the fields laid end to end. */
  function Encode(h: Header): (b: seq<byte>)
    requires h.WellFormed()
    ensures |b| == BLOCKSIZE
  {
    h.name + h.mode + h.uid + h.gid + h.size + h.mtime + h.chksum + [h.typeflag]
    + h.linkname + h.magic + h.version + h.uname + h.gname + h.devmajor
    + h.devminor + h.prefix + h.padding
  }

  /** Reading a 512-byte block into the struct: each field is the slice at its offset. */
  function Decode(b: seq<byte>): (h: Header)
    requires |b| == BLOCKSIZE
    ensures h.WellFormed()
  {
    Header(b[0..100], b[100..108], b[108..116], b[116..124], b[124..136], b[136..148],
           b[148..156], b[156], b[157..257], b[257..263], b[263..265], b[265..297],
           b[297..329], b[329..337], b[337..345], b[345..500], b[500..512])
  }

  /** The fields are contiguous: each starts where the one before it ends, the
      first at byte 0, and the last ends at BLOCKSIZE. */
  lemma LayoutFillsBlock()
    ensures |FIELD_OFFSETS| == |FIELD_SIZES| == 17
    ensures FIELD_OFFSETS[0] == 0
    ensures forall k :: 0 <= k < 16 ==> FIELD_OFFSETS[k] + FIELD_SIZES[k] == FIELD_OFFSETS[k + 1]
    ensures FIELD_OFFSETS[16] + FIELD_SIZES[16] == BLOCKSIZE
  {
  }

  /** Field k of the record read from a block is the block's slice at FIELD_OFFSETS[k]. */
  lemma FieldsAtOffsets(b: seq<byte>, k: nat)
    requires |b| == BLOCKSIZE && k < |FIELD_SIZES|
    ensures FIELD_OFFSETS[k] + FIELD_SIZES[k] <= BLOCKSIZE
    ensures Decode(b).Field(k) == b[FIELD_OFFSETS[k]..FIELD_OFFSETS[k] + FIELD_SIZES[k]]
  {
    if k == 7 {
      assert b[156..157] == [b[156]];
    }
  }

  /** Cutting the last piece off a prefix of b: the piece is b's slice right
      after the shorter prefix. */
  lemma PeelLast(b: seq<byte>, x: seq<byte>, f: seq<byte>)
    requires |x| + |f| <= |b| && b[..|x| + |f|] == x + f
    ensures b[|x|..|x| + |f|] == f && b[..|x|] == x
  {
    assert b[|x|..|x| + |f|] == (x + f)[|x|..];
    assert b[..|x|] == (x + f)[..|x|];
  }

  /** Decoding the encoding of a record gives the record back. */
  lemma DecodeEncode(h: Header)
    requires h.WellFormed()
    ensures Decode(Encode(h)) == h
  {
    var b := Encode(h);
    var x1 := h.name;
    var x2 := x1 + h.mode;
    var x3 := x2 + h.uid;
    var x4 := x3 + h.gid;
    var x5 := x4 + h.size;
    var x6 := x5 + h.mtime;
    var x7 := x6 + h.chksum;
    var x8 := x7 + [h.typeflag];
    var x9 := x8 + h.linkname;
    var x10 := x9 + h.magic;
    var x11 := x10 + h.version;
    var x12 := x11 + h.uname;
    var x13 := x12 + h.gname;
    var x14 := x13 + h.devmajor;
    var x15 := x14 + h.devminor;
    var x16 := x15 + h.prefix;
    assert b == x16 + h.padding;
    assert b[..BLOCKSIZE] == b;
    PeelLast(b, x16, h.padding);
    PeelLast(b, x15, h.prefix);
    PeelLast(b, x14, h.devminor);
    PeelLast(b, x13, h.devmajor);
    PeelLast(b, x12, h.gname);
    PeelLast(b, x11, h.uname);
    PeelLast(b, x10, h.version);
    PeelLast(b, x9, h.magic);
    PeelLast(b, x8, h.linkname);
    PeelLast(b, x7, [h.typeflag]);
    PeelLast(b, x6, h.chksum);
    PeelLast(b, x5, h.mtime);
    PeelLast(b, x4, h.size);
    PeelLast(b, x3, h.gid);
    PeelLast(b, x2, h.uid);
    PeelLast(b, x1, h.mode);
    assert b[0..100] == x1;
    assert b[156] == b[156..157][0];
  }

  /** Encoding the record read from a block gives the block back. */
  lemma EncodeDecode(b: seq<byte>)
    requires |b| == BLOCKSIZE
    ensures Encode(Decode(b)) == b
  {
    var e := Encode(Decode(b));
    forall i | 0 <= i < BLOCKSIZE ensures e[i] == b[i] { }
  }

  // ---------------------------------------------------------------------------
  // C strings and strncmp

  /** The byte a C routine sees at index i: past the end of s it sees the terminating NUL. */
  function At(s: seq<byte>, i: nat): byte {
    if i < |s| then s[i] else NUL
  }

  /** The C string held in s from index i on, read at most up to index n. */
  function CStringFrom(s: seq<byte>, n: nat, i: nat): (r: seq<byte>)
    decreases n - i
    ensures |r| <= if i <= n then n - i else 0
    ensures forall k :: 0 <= k < |r| ==> r[k] != NUL && r[k] == At(s, i + k)
    ensures i + |r| < n ==> At(s, i + |r|) == NUL
  {
    if i >= n || At(s, i) == NUL then [] else [At(s, i)] + CStringFrom(s, n, i + 1)
  }

  /** The C string in a buffer of which at most n bytes are looked at. */
  function CString(s: seq<byte>, n: nat): seq<byte> {
    CStringFrom(s, n, 0)
  }

  /** The C string of a buffer is its bytes up to the first NUL among the first n. */
  lemma CStringOfPrefix(s: seq<byte>, n: nat, i: nat)
    requires i <= n <= |s|
    requires forall k :: 0 <= k < i ==> s[k] != NUL
    requires i == n || s[i] == NUL
    ensures CString(s, n) == s[..i]
  {
    var c := CString(s, n);
    assert forall k :: 0 <= k < |c| ==> c[k] == s[k];
  }

  /** strncmp(a + i, b + i, n - i) == 0, as the C library defines it: stop at
      the first difference, at a NUL common to both, or after n bytes. */
  predicate StrnEqualFrom(a: seq<byte>, b: seq<byte>, n: nat, i: nat)
    decreases n - i
  {
    i >= n || (At(a, i) == At(b, i) && (At(a, i) == NUL || StrnEqualFrom(a, b, n, i + 1)))
  }

  /** strncmp(a, b, n) == 0 */
  predicate StrnEqual(a: seq<byte>, b: seq<byte>, n: nat) {
    StrnEqualFrom(a, b, n, 0)
  }

  lemma {:induction false} StrnEqualFromIff(a: seq<byte>, b: seq<byte>, n: nat, i: nat)
    decreases n - i
    ensures StrnEqualFrom(a, b, n, i) <==> CStringFrom(a, n, i) == CStringFrom(b, n, i)
  {
    if i < n && At(a, i) != NUL && At(b, i) != NUL {
      StrnEqualFromIff(a, b, n, i + 1);
      var ra, rb := CStringFrom(a, n, i + 1), CStringFrom(b, n, i + 1);
      assert CStringFrom(a, n, i) == [At(a, i)] + ra;
      assert CStringFrom(b, n, i) == [At(b, i)] + rb;
      if CStringFrom(a, n, i) == CStringFrom(b, n, i) {
        assert ra == CStringFrom(a, n, i)[1..];
      }
    }
  }

  /** strncmp reports equality exactly when the two C strings, cut at n bytes, are equal. */
  lemma StrnEqualIsCStringEquality(a: seq<byte>, b: seq<byte>, n: nat)
    ensures StrnEqual(a, b, n) <==> CString(a, n) == CString(b, n)
  {
    StrnEqualFromIff(a, b, n, 0);
  }

  /** A byte string with no NUL that fits in n bytes is its own C string. */
  lemma {:induction false} CStringOfPlain(s: seq<byte>, n: nat, i: nat)
    requires |s| <= n && i <= |s|
    requires forall k :: 0 <= k < |s| ==> s[k] != NUL
    decreases |s| - i
    ensures CStringFrom(s, n, i) == s[i..]
  {
    if i < |s| {
      CStringOfPlain(s, n, i + 1);
      assert s[i..] == [s[i]] + s[i + 1..];
    }
  }

  // ---------------------------------------------------------------------------
  // Format markers

  /** strncmp(header.magic, TMAGIC, TMAGLEN) == 0 */
  predicate MagicOk(magic: seq<byte>) {
    StrnEqual(magic, TMAGIC, TMAGLEN)
  }

  /** strncmp(header.version, TVERSION, TVERSLEN) == 0 */
  predicate VersionOk(version: seq<byte>) {
    StrnEqual(version, TVERSION, TVERSLEN)
  }

  /** The 6-byte comparison accepts exactly the field "ustar\0". */
  lemma MagicOkIff(magic: seq<byte>)
    requires |magic| == TMAGLEN
    ensures MagicOk(magic) <==> magic == TMAGIC
  {
    StrnEqualIsCStringEquality(magic, TMAGIC, TMAGLEN);
    CStringOfPlain(TMAGIC[..5], TMAGLEN, 0);
    assert CString(TMAGIC, TMAGLEN) == CString(TMAGIC[..5], TMAGLEN) by {
      assert TMAGIC[5] == NUL;
    }
    var c := CString(magic, TMAGLEN);
    if MagicOk(magic) {
      assert c == TMAGIC[..5];
      assert magic[5] == NUL;
      assert forall k :: 0 <= k < 5 ==> magic[k] == c[k];
      assert magic == TMAGIC;
    }
  }

  /** The 2-byte comparison accepts exactly the field "00". */
  lemma VersionOkIff(version: seq<byte>)
    requires |version| == TVERSLEN
    ensures VersionOk(version) <==> version == TVERSION
  {
    StrnEqualIsCStringEquality(version, TVERSION, TVERSLEN);
    CStringOfPlain(TVERSION, TVERSLEN, 0);
    assert TVERSION[0..] == TVERSION;
    var c := CString(version, TVERSLEN);
    if VersionOk(version) {
      assert c == TVERSION;
      assert forall k :: 0 <= k < 2 ==> version[k] == c[k];
      assert version == TVERSION;
    }
  }

  // ---------------------------------------------------------------------------
  // ASCII number fields

  function Pow(base: nat, e: nat): (p: nat)
    ensures base >= 1 ==> p >= 1
  {
    if e == 0 then 1 else base * Pow(base, e - 1)
  }

  /** c is an ASCII digit of the given base (2..10). */
  predicate IsDigit(c: byte, base: nat) {
    48 <= c < 48 + base
  }

  /** The length of the run of digits at the start of s. */
  function DigitRun(s: seq<byte>, base: nat): (k: nat)
    ensures k <= |s|
    ensures forall i :: 0 <= i < k ==> IsDigit(s[i], base)
    ensures k < |s| ==> !IsDigit(s[k], base)
  {
    if s == [] || !IsDigit(s[0], base) then 0 else 1 + DigitRun(s[1..], base)
  }

  function DigitVal(c: byte): nat {
    if c >= 48 then c - 48 else 0
  }

  /** The value of a string of digits, most significant first. */
  function DigitsValue(ds: seq<byte>, base: nat): nat
    requires forall i :: 0 <= i < |ds| ==> IsDigit(ds[i], base)
  {
    if ds == [] then 0 else DigitsValue(ds[..|ds| - 1], base) * base + DigitVal(ds[|ds| - 1])
  }

  lemma {:induction false} DigitsValueBound(ds: seq<byte>, base: nat)
    requires 2 <= base <= 10
    requires forall i :: 0 <= i < |ds| ==> IsDigit(ds[i], base)
    ensures DigitsValue(ds, base) < Pow(base, |ds|)
  {
    if ds != [] {
      var init := ds[..|ds| - 1];
      DigitsValueBound(init, base);
      var v := DigitsValue(init, base);
      var p := Pow(base, |init|);
      var d := DigitVal(ds[|ds| - 1]);
      assert d < base by { assert IsDigit(ds[|ds| - 1], base); }
      MulMonotone(v + 1, p, base);
      assert (v + 1) * base == v * base + base;
      assert Pow(base, |ds|) == base * p;
      assert DigitsValue(ds, base) == v * base + d;
    }
  }

  lemma MulMonotone(a: nat, b: nat, c: nat)
    requires a <= b
    ensures a * c <= b * c
  {
  }

  lemma DivBound(n: nat, b: nat, p: nat)
    requires b >= 1 && n < b * p
    ensures n / b < p
  {
    if n / b >= p {
      MulMonotone(p, n / b, b);
    }
  }

  /** The number a digit field holds: strtol(field, &end, base) with the parse
      confined to the field's bytes and to unsigned digits, stopping at the
      first byte that is not a digit of the base. */
  function ParseNumber(field: seq<byte>, base: nat): (v: nat)
    requires 2 <= base <= 10
    ensures v < Pow(base, DigitRun(field, base))
  {
    DigitsValueBound(field[..DigitRun(field, base)], base);
    DigitsValue(field[..DigitRun(field, base)], base)
  }

  /** TAR_INT: an ASCII octal field as an integer. */
  function TarInt(field: seq<byte>): (v: nat)
    ensures v < Pow(8, DigitRun(field, 8))
  {
    ParseNumber(field, 8)
  }

  /** n written with exactly `width` digits of the base, zero-padded on the left. */
  function FormatDigits(n: nat, width: nat, base: nat): (ds: seq<byte>)
    requires 2 <= base <= 10
    ensures |ds| == width
    ensures forall i :: 0 <= i < width ==> IsDigit(ds[i], base)
  {
    if width == 0 then [] else FormatDigits(n / base, width - 1, base) + [(48 + n % base) as byte]
  }

  /** Reading back a number written with enough digits gives the number. */
  lemma {:induction false} FormatDigitsValue(n: nat, width: nat, base: nat)
    requires 2 <= base <= 10
    requires n < Pow(base, width)
    decreases width
    ensures DigitsValue(FormatDigits(n, width, base), base) == n
  {
    if width > 0 {
      var ds := FormatDigits(n, width, base);
      var q, r := n / base, n % base;
      var hi := FormatDigits(q, width - 1, base);
      DivMod(n, base);
      DivBound(n, base, Pow(base, width - 1));
      FormatDigitsValue(q, width - 1, base);
      assert ds == hi + [(48 + r) as byte];
      assert ds[..|ds| - 1] == hi;
      assert DigitVal(ds[|ds| - 1]) == r;
      assert DigitsValue(ds, base) == DigitsValue(hi, base) * base + r;
    }
  }

  lemma DivMod(n: nat, b: nat)
    requires b >= 1
    ensures (n / b) * b + n % b == n && n % b < b
  {
  }

  lemma {:induction false} DigitRunOfDigits(ds: seq<byte>, rest: seq<byte>, base: nat)
    requires forall i :: 0 <= i < |ds| ==> IsDigit(ds[i], base)
    requires rest == [] || !IsDigit(rest[0], base)
    ensures DigitRun(ds + rest, base) == |ds|
  {
    if ds != [] {
      assert (ds + rest)[1..] == ds[1..] + rest;
      DigitRunOfDigits(ds[1..], rest, base);
    } else {
      assert ds + rest == rest;
    }
  }

  /** A field holding a zero-padded number and then a terminator parses to that number. */
  lemma ParseFormatted(n: nat, width: nat, base: nat, rest: seq<byte>)
    requires 2 <= base <= 10
    requires n < Pow(base, width)
    requires rest == [] || !IsDigit(rest[0], base)
    ensures ParseNumber(FormatDigits(n, width, base) + rest, base) == n
  {
    var ds := FormatDigits(n, width, base);
    DigitRunOfDigits(ds, rest, base);
    assert (ds + rest)[..width] == ds;
    FormatDigitsValue(n, width, base);
  }

  // ---------------------------------------------------------------------------
  // Checksum

  /** Byte k as the checksum counts it: bytes of the chksum field count as spaces. */
  function CountedByte(b: seq<byte>, k: nat): byte
    requires k < |b|
  {
    if CHKSUM_OFFSET <= k < CHKSUM_OFFSET + CHKSUM_LEN then SPACE else b[k]
  }

  /** The checksum contribution of the first i bytes. */
  function ChecksumPrefix(b: seq<byte>, i: nat): nat
    requires i <= |b|
  {
    if i == 0 then 0 else ChecksumPrefix(b, i - 1) + CountedByte(b, i - 1)
  }

  /** calculate_tar_checksum's documented result for a 512-byte block. */
  function ChecksumOf(b: seq<byte>): nat
    requires |b| == BLOCKSIZE
  {
    ChecksumPrefix(b, BLOCKSIZE)
  }

  function ByteSum(s: seq<byte>): nat {
    if s == [] then 0 else ByteSum(s[..|s| - 1]) + s[|s| - 1]
  }

  function Spaces(n: nat): (s: seq<byte>)
    ensures |s| == n && forall i :: 0 <= i < n ==> s[i] == SPACE
  {
    seq(n, _ => SPACE)
  }

  /** The block with its chksum field overwritten by eight spaces. */
  function Blanked(b: seq<byte>): (m: seq<byte>)
    requires |b| == BLOCKSIZE
    ensures |m| == BLOCKSIZE
  {
    b[..CHKSUM_OFFSET] + Spaces(CHKSUM_LEN) + b[CHKSUM_OFFSET + CHKSUM_LEN..]
  }

  lemma {:induction false} ChecksumPrefixIsSum(b: seq<byte>, i: nat)
    requires |b| == BLOCKSIZE && i <= BLOCKSIZE
    ensures ChecksumPrefix(b, i) == ByteSum(Blanked(b)[..i])
  {
    var m := Blanked(b);
    if i > 0 {
      ChecksumPrefixIsSum(b, i - 1);
      assert m[..i][..i - 1] == m[..i - 1];
      assert m[i - 1] == CountedByte(b, i - 1);
    } else {
      assert m[..0] == [];
    }
  }

  /** The checksum is the plain byte sum of the block with its chksum field read as spaces. */
  lemma ChecksumIsBlankedSum(b: seq<byte>)
    requires |b| == BLOCKSIZE
    ensures ChecksumOf(b) == ByteSum(Blanked(b))
  {
    ChecksumPrefixIsSum(b, BLOCKSIZE);
    assert Blanked(b)[..BLOCKSIZE] == Blanked(b);
  }

  lemma {:induction false} ChecksumPrefixIgnoresChksum(b: seq<byte>, c: seq<byte>, i: nat)
    requires |b| == |c| == BLOCKSIZE && i <= BLOCKSIZE
    requires forall k :: 0 <= k < BLOCKSIZE && !(CHKSUM_OFFSET <= k < CHKSUM_OFFSET + CHKSUM_LEN) ==> b[k] == c[k]
    ensures ChecksumPrefix(b, i) == ChecksumPrefix(c, i)
  {
    if i > 0 {
      ChecksumPrefixIgnoresChksum(b, c, i - 1);
    }
  }

  /** Two blocks that differ only inside the chksum field have the same checksum. */
  lemma ChecksumIgnoresChksumField(b: seq<byte>, c: seq<byte>)
    requires |b| == |c| == BLOCKSIZE
    requires b[..CHKSUM_OFFSET] == c[..CHKSUM_OFFSET]
    requires b[CHKSUM_OFFSET + CHKSUM_LEN..] == c[CHKSUM_OFFSET + CHKSUM_LEN..]
    ensures ChecksumOf(b) == ChecksumOf(c)
  {
    forall k | 0 <= k < BLOCKSIZE && !(CHKSUM_OFFSET <= k < CHKSUM_OFFSET + CHKSUM_LEN)
      ensures b[k] == c[k]
    {
      if k < CHKSUM_OFFSET {
        assert b[..CHKSUM_OFFSET][k] == c[..CHKSUM_OFFSET][k];
      } else {
        assert b[CHKSUM_OFFSET + CHKSUM_LEN..][k - 156] == c[CHKSUM_OFFSET + CHKSUM_LEN..][k - 156];
      }
    }
    ChecksumPrefixIgnoresChksum(b, c, BLOCKSIZE);
  }

  /** How many of the first i bytes lie in the chksum field. */
  function BlankedBefore(i: nat): nat {
    if i <= CHKSUM_OFFSET then 0
    else if i >= CHKSUM_OFFSET + CHKSUM_LEN then CHKSUM_LEN
    else i - CHKSUM_OFFSET
  }

  lemma {:induction false} ChecksumPrefixBounds(b: seq<byte>, i: nat)
    requires |b| == BLOCKSIZE && i <= BLOCKSIZE
    ensures SPACE * BlankedBefore(i) <= ChecksumPrefix(b, i)
    ensures ChecksumPrefix(b, i) <= 255 * (i - BlankedBefore(i)) + SPACE * BlankedBefore(i)
  {
    if i > 0 {
      ChecksumPrefixBounds(b, i - 1);
    }
  }

  /** The checksum of any block lies between 8*32 (all other bytes zero) and
      504*255 + 8*32, so it fits the unsigned int calculate_tar_checksum returns
      and the six octal digits a ustar chksum field holds. */
  lemma ChecksumBounds(b: seq<byte>)
    requires |b| == BLOCKSIZE
    ensures CHKSUM_LEN * SPACE <= ChecksumOf(b) <= (BLOCKSIZE - CHKSUM_LEN) * 255 + CHKSUM_LEN * SPACE
    ensures ChecksumOf(b) < Pow(8, 6)
  {
    ChecksumPrefixBounds(b, BLOCKSIZE);
    assert Pow(8, 6) == 262144;
  }

  /** calculate_tar_checksum: the sum over the header's 512 bytes with the chksum
      field counted as spaces. */
  method CalculateTarChecksum(header: Header) returns (sum: nat)
    requires header.WellFormed()
    ensures sum == ChecksumOf(Encode(header))
  {
    var b := Encode(header);
    sum := 0;
    var i := 0;
    while i < BLOCKSIZE
      invariant 0 <= i <= BLOCKSIZE
      invariant sum == ChecksumPrefix(b, i)
    {
      if CHKSUM_OFFSET <= i < CHKSUM_OFFSET + CHKSUM_LEN {
        sum := sum + SPACE;
      } else {
        sum := sum + b[i];
      }
      i := i + 1;
    }
  }

  /** The stored chksum field, read as octal, matches the computed checksum. */
  predicate ChecksumOk(h: Header)
    requires h.WellFormed()
  {
    TarInt(h.chksum) == ChecksumOf(Encode(h))
  }

  /** The chksum field as ustar writers fill it: six octal digits, a NUL and a space. */
  function ChksumField(sum: nat): (f: seq<byte>)
    ensures |f| == CHKSUM_LEN
  {
    FormatDigits(sum, 6, 8) + [NUL, SPACE]
  }

  /** Writing the computed checksum into a header's chksum field gives a header
      whose stored checksum verifies: the field's own bytes do not feed the sum. */
  lemma StampedChecksumVerifies(h: Header)
    requires h.WellFormed()
    ensures ChecksumOk(h.(chksum := ChksumField(ChecksumOf(Encode(h)))))
  {
    var sum := ChecksumOf(Encode(h));
    var s := h.(chksum := ChksumField(sum));
    ChecksumBounds(Encode(h));
    ParseFormatted(sum, 6, 8, [NUL, SPACE]);
    var b, c := Encode(h), Encode(s);
    assert b[..CHKSUM_OFFSET] == c[..CHKSUM_OFFSET];
    assert b[CHKSUM_OFFSET + CHKSUM_LEN..] == c[CHKSUM_OFFSET + CHKSUM_LEN..];
    ChecksumIgnoresChksumField(b, c);
  }

  // ---------------------------------------------------------------------------
  // Entry kinds

  datatype EntryKind = File | Directory | Symlink

  /** The kind a typeflag names: '5' a directory, '2' a symlink, anything else a file. */
  function KindOf(flag: byte): (k: EntryKind)
    ensures k == Directory <==> flag == DIRTYPE
    ensures k == Symlink <==> flag == SYMTYPE
    ensures flag == REGTYPE || flag == AREGTYPE ==> k == File
  {
    if flag == DIRTYPE then Directory else if flag == SYMTYPE then Symlink else File
  }

  /** get_header_type's codes: 1 file, 2 directory, 3 symlink. */
  function TypeCode(k: EntryKind): (c: int)
    ensures 1 <= c <= 3
    ensures c == 1 <==> k == File
    ensures c == 2 <==> k == Directory
  {
    match k
    case File => 1
    case Directory => 2
    case Symlink => 3
  }

  /** A block of zero bytes: the end-of-archive marker. */
  predicate IsNullBlock(b: seq<byte>) {
    forall i :: 0 <= i < |b| ==> b[i] == 0
  }

  /** A marker block read as a header fails the magic test. */
  lemma NullBlockFailsMagic(b: seq<byte>)
    requires |b| == BLOCKSIZE && IsNullBlock(b)
    ensures !MagicOk(Decode(b).magic)
  {
    var h := Decode(b);
    assert At(h.magic, 0) == 0 != At(TMAGIC, 0);
  }
}
