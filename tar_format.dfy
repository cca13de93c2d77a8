/**
 * The 512-byte tar record as mytar reads it: the field offsets of
 * `struct tar_record`, C strings inside the archive buffer, the octal size
 * decoder `to_int`, the null-record test, header validation and the number
 * of records an entry occupies.
 */
module TarFormat {

  /** One byte of the archive or of a command-line argument. */
  newtype byte = b: int | 0 <= b < 256

  type Bytes = seq<byte>

  // A record (`tar_rec_size`) is 512 bytes; the literal is used throughout.

  // The widths of the fields of `struct tar_record`, in declaration order.
  const NameWidth: nat := 100
  const PropsOneWidth: nat := 24
  const SizeWidth: nat := 12
  const PropsTwoWidth: nat := 20
  const TypeflagWidth: nat := 1
  const PropsThreeWidth: nat := 100
  const MagicWidth: nat := 6
  const PropsFourWidth: nat := 249

  // The offsets of the fields mytar reads.
  const NameOffset: nat := 0
  const SizeOffset: nat := 124
  const TypeflagOffset: nat := 156
  const MagicOffset: nat := 257

  const Nul: byte := 0
  const CharZero: byte := '0' as byte

  /** The C string "ustar" that the magic field is compared with. */
  const Ustar: Bytes := ['u' as byte, 's' as byte, 't' as byte, 'a' as byte, 'r' as byte]

  /** The value of a byte read through a (signed) C `char`. */
  function SignedChar(b: byte): (c: int)
    ensures -128 <= c < 128
    ensures (c - b as int) % 256 == 0
    ensures b as int < 128 ==> c == b as int
  {
    if b < 128 then b as int else b as int - 256
  }

  /** The two's-complement range of a C `int`. */
  predicate IsInt(n: int)
  {
    -0x8000_0000 <= n < 0x8000_0000
  }

  /**
   * The C string that starts at offset `p` of the buffer: the bytes up to,
   * not including, the first NUL. Without a NUL it runs to the buffer end.
   */
  function CStringAt(buf: Bytes, p: nat): (s: Bytes)
    decreases |buf| - p
    ensures p <= |buf| ==> p + |s| <= |buf| && s == buf[p..p + |s|]
    ensures Nul !in s
    ensures p + |s| < |buf| ==> buf[p + |s|] == Nul
  {
    if p >= |buf| || buf[p] == Nul then [] else [buf[p]] + CStringAt(buf, p + 1)
  }

  // ---------------------------------------------------------------------
  // Size decoding: to_int

  /** The contribution of one character to `to_int`'s accumulator: `c - '0'`. */
  function DigitValue(b: byte): int
  {
    SignedChar(b) - SignedChar(CharZero)
  }

  /**
   * The left fold `num * 8 + (c - '0')` of `to_int` over a string, for any
   * byte values (there is no digit validation), over unbounded integers.
   */
  function OctalFold(s: Bytes): int
  {
    if s == [] then 0 else OctalFold(s[..|s| - 1]) * 8 + DigitValue(s[|s| - 1])
  }

  /**
   * No intermediate value of `to_int`'s accumulator leaves the range of a
   * C `int`; otherwise the C code overflows a signed integer.
   */
  predicate FoldFitsInt(s: Bytes)
  {
    s == [] ||
    (FoldFitsInt(s[..|s| - 1]) &&
     IsInt(OctalFold(s[..|s| - 1]) * 8) &&
     IsInt(OctalFold(s)))
  }

  /** A NUL-free run of bytes ended by a NUL or by the buffer end is the C string there. */
  lemma {:induction false} CStringIsRun(buf: Bytes, p: nat, q: nat)
    requires p <= q <= |buf|
    requires forall k :: p <= k < q ==> buf[k] != Nul
    requires q == |buf| || buf[q] == Nul
    ensures CStringAt(buf, p) == buf[p..q]
    decreases q - p
  {
    if p < q {
      CStringIsRun(buf, p + 1, q);
      assert buf[p..q] == [buf[p]] + buf[p + 1..q];
    }
  }

  /**
   * `to_int`: reads the C string at offset `p` and folds its characters.
   * `fits` reports whether every step stayed within a C `int`; when it is
   * false the C code has overflowed a signed integer.
   */
  method ToInt(buf: Bytes, p: nat) returns (num: int, fits: bool)
    requires p <= |buf|
    ensures num == OctalFold(CStringAt(buf, p))
    ensures fits <==> FoldFitsInt(CStringAt(buf, p))
  {
    num, fits := 0, true;
    var i := p;
    while i < |buf| && buf[i] != Nul
      invariant p <= i <= |buf|
      invariant forall k :: p <= k < i ==> buf[k] != Nul
      invariant num == OctalFold(buf[p..i])
      invariant fits <==> FoldFitsInt(buf[p..i])
    {
      assert buf[p..i + 1][..i - p] == buf[p..i];
      fits := fits && IsInt(num * 8) && IsInt(num * 8 + DigitValue(buf[i]));
      num := num * 8 + DigitValue(buf[i]);
      i := i + 1;
    }
    CStringIsRun(buf, p, i);
  }

  function Pow8(k: nat): (r: nat)
    ensures r >= 1
  {
    if k == 0 then 1 else 8 * Pow8(k - 1)
  }

  /** The positional reading of a size field: the sum of digit * 8^k. */
  function OctalPositional(s: Bytes): int
  {
    if s == [] then 0 else DigitValue(s[0]) * Pow8(|s| - 1) + OctalPositional(s[1..])
  }

  lemma {:induction false} OctalPositionalSnoc(s: Bytes, b: byte)
    ensures OctalPositional(s + [b]) == OctalPositional(s) * 8 + DigitValue(b)
    decreases |s|
  {
    if s == [] {
      assert OctalPositional([b]) == DigitValue(b) * Pow8(0) + OctalPositional([]);
    } else {
      var t := s[1..];
      assert (s + [b])[1..] == t + [b];
      OctalPositionalSnoc(t, b);
      calc {
        OctalPositional(s + [b]);
        DigitValue(s[0]) * Pow8(|t| + 1) + OctalPositional(t + [b]);
        DigitValue(s[0]) * (8 * Pow8(|t|)) + OctalPositional(t) * 8 + DigitValue(b);
        { assert DigitValue(s[0]) * (8 * Pow8(|t|)) == (DigitValue(s[0]) * Pow8(|t|)) * 8; }
        (DigitValue(s[0]) * Pow8(|t|) + OctalPositional(t)) * 8 + DigitValue(b);
        OctalPositional(s) * 8 + DigitValue(b);
      }
    }
  }

  /**
   * `to_int`'s left fold is the positional octal value: each character
   * contributes (c - '0') * 8^k, k counted from the right.
   */
  lemma {:induction false} OctalFoldIsPositional(s: Bytes)
    ensures OctalFold(s) == OctalPositional(s)
    decreases |s|
  {
    if s != [] {
      var init := s[..|s| - 1];
      OctalFoldIsPositional(init);
      assert s == init + [s[|s| - 1]];
      OctalPositionalSnoc(init, s[|s| - 1]);
    }
  }

  /** The minimal octal numeral of `n`, as an archiver writes a size field. */
  function OctalDigits(n: nat): (s: Bytes)
    ensures |s| >= 1
    ensures forall k :: 0 <= k < |s| ==> CharZero <= s[k] < CharZero + 8
  {
    if n < 8 then [CharZero + n as byte] else OctalDigits(n / 8) + [CharZero + (n % 8) as byte]
  }

  /** Decoding an octal numeral gives back the number it was written from. */
  lemma {:induction false} OctalFoldOfDigits(n: nat)
    ensures OctalFold(OctalDigits(n)) == n
    decreases n
  {
    var s := OctalDigits(n);
    if n >= 8 {
      OctalFoldOfDigits(n / 8);
      assert s[..|s| - 1] == OctalDigits(n / 8);
    }
  }

  /** Leading '0' characters, as in a zero-padded size field, do not change the value. */
  lemma {:induction false} OctalFoldLeadingZero(s: Bytes)
    ensures OctalFold([CharZero] + s) == OctalFold(s)
    decreases |s|
  {
    if s != [] {
      var init := s[..|s| - 1];
      assert ([CharZero] + s)[..|s|] == [CharZero] + init;
      OctalFoldLeadingZero(init);
    }
  }

  // ---------------------------------------------------------------------
  // Records

  /** Number of whole records in a buffer; the record index of `buff_end`. */
  function RecordCount(buf: Bytes): nat
  {
    |buf| / 512
  }

  /** Every byte of record `r` is zero. */
  predicate IsNullRecord(buf: Bytes, r: nat)
    requires r < RecordCount(buf)
  {
    forall i :: r * 512 <= i < (r + 1) * 512 ==> buf[i] == Nul
  }

  /** `rec_is_null`: scans the 512 bytes of record `r` for a non-zero byte. */
  method RecIsNull(buf: Bytes, r: nat) returns (isNull: bool)
    requires r < RecordCount(buf)
    ensures isNull <==> IsNullRecord(buf, r)
  {
    var base := r * 512;
    for i := 0 to 512
      invariant forall k :: base <= k < base + i ==> buf[k] == Nul
    {
      if buf[base + i] != Nul {
        return false;
      }
    }
    return true;
  }

  /** The fields of the header record at index `r` that mytar reads. */
  datatype Header = Header(name: Bytes, sizeText: Bytes, typeflag: byte, magic: Bytes)

  /** The header fields of record `r` that mytar reads. */
  function HeaderAt(buf: Bytes, r: nat): Header
    requires r < RecordCount(buf)
  {
    var base := r * 512;
    Header(CStringAt(buf, base + NameOffset),
           CStringAt(buf, base + SizeOffset),
           buf[base + TypeflagOffset],
           CStringAt(buf, base + MagicOffset))
  }

  /**
   * Each header field is read at the sum of the widths of the fields
   * declared before it in `struct tar_record` (a struct of `char` fields
   * has no padding), inside the record, whose widths add up to 512.
   */
  lemma HeaderFieldsAtDeclaredOffsets(buf: Bytes, r: nat)
    requires r < RecordCount(buf)
    ensures var h, base := HeaderAt(buf, r), r * 512;
      && h.name == CStringAt(buf, base)
      && h.sizeText == CStringAt(buf, base + NameWidth + PropsOneWidth)
      && h.typeflag == buf[base + NameWidth + PropsOneWidth + SizeWidth + PropsTwoWidth]
      && h.magic == CStringAt(buf, base + NameWidth + PropsOneWidth + SizeWidth + PropsTwoWidth
                                   + TypeflagWidth + PropsThreeWidth)
      && MagicOffset + MagicWidth + PropsFourWidth == 512
  {
  }

  // ---------------------------------------------------------------------
  // Header validation: assert_valid_header

  datatype HeaderVerdict = Accepted | NotTarArchive | UnsupportedType(typeflag: byte)

  /**
   * `assert_valid_header`, with its magic test as written: a magic field
   * that reads as the C string "ustar" is REJECTED.
   */
  function ValidateHeader(magic: Bytes, typeflag: byte): (v: HeaderVerdict)
    ensures v == Accepted <==> magic != Ustar && typeflag == CharZero
    ensures v == NotTarArchive <==> magic == Ustar || SignedChar(typeflag) < SignedChar(CharZero)
    ensures v.UnsupportedType? ==> v.typeflag == typeflag && typeflag != CharZero
  {
    if magic == Ustar || SignedChar(typeflag) < SignedChar(CharZero) then NotTarArchive
    else if typeflag != CharZero then UnsupportedType(typeflag)
    else Accepted
  }

  // ---------------------------------------------------------------------
  // Record skip: move_next_record_iterator

  /**
   * The number of records from a header to the next one:
   * `size / 512 + 1 + (size % 512 != 0)`. It is the header plus the fewest
   * whole records that hold `size` content bytes.
   */
  function RecordsToSkip(size: nat): (n: nat)
    ensures n >= 1
    ensures (n - 1) * 512 >= size
    ensures n >= 2 ==> (n - 2) * 512 < size
  {
    size / 512 + 1 + (if size % 512 != 0 then 1 else 0)
  }

  // ---------------------------------------------------------------------
  // The skip as the C arithmetic computes it, on x86-64 (LP64) with gcc:
  // `tar_rec_size` is a 64-bit `size_t`, `int` has 32 bits, and converting
  // an out-of-range unsigned value to `int` wraps modulo 2^32.

  const SizeTRange: nat := 0x1_0000_0000_0000_0000
  const IntRange: nat := 0x1_0000_0000

  /** The conversion of an `int` to `size_t`: modulo 2^64. */
  function ToSizeT(n: int): (u: nat)
    ensures u < SizeTRange
    ensures n >= 0 && n < SizeTRange ==> u == n
  {
    n % SizeTRange
  }

  /** gcc's conversion of an unsigned value to `int`: modulo 2^32, two's complement. */
  function WrapToInt(u: nat): (i: int)
    ensures IsInt(i)
    ensures (i - u) % IntRange == 0
  {
    var m := u % IntRange;
    if m < 0x8000_0000 then m else m - IntRange
  }

  /**
   * `num_of_recs` of `move_next_record_iterator` for any decoded `size`:
   * the division and the remainder by `tar_rec_size` convert `size` to
   * `size_t`, and the quotient plus one is converted back to `int`. For a
   * non-negative size this is `RecordsToSkip`; a negative size -k gives
   * 1 - k / 512, which is 0 for -512 to -1023 and negative below.
   */
  function SkipAsWritten(size: int): (n: int)
    requires IsInt(size)
    ensures size >= 0 ==> n == RecordsToSkip(size)
    ensures size < 0 ==> n == 1 - (-size) / 512
  {
    var u := ToSizeT(size);
    SizeTQuotient(size);
    var recs := WrapToInt((u / 512 + 1) % SizeTRange);
    if u % 512 != 0 then recs + 1 else recs
  }

  /** Division by 512 is determined by quotient and remainder. */
  lemma DivModUnique(x: int, q: int, r: int)
    requires x == 512 * q + r && 0 <= r < 512
    ensures x / 512 == q && x % 512 == r
  {
  }

  /** Reduction modulo 2^32 is determined by quotient and remainder. */
  lemma ModIntRange(x: int, q: int, r: int)
    requires x == IntRange * q + r && 0 <= r < IntRange
    ensures x % IntRange == r
  {
  }

  /**
   * The `size_t` arithmetic of `move_next_record_iterator` in terms of
   * `size`: the remainder is `size`'s, and the quotient plus one, back in
   * an `int`, is `size / 512 + 1` rounded down, also for negative sizes.
   */
  lemma SizeTQuotient(size: int)
    requires IsInt(size)
    ensures ToSizeT(size) % 512 == size % 512
    ensures WrapToInt((ToSizeT(size) / 512 + 1) % SizeTRange) == size / 512 + 1
    ensures size < 0 ==> size / 512 + 1 + (if size % 512 != 0 then 1 else 0) == 1 - (-size) / 512
  {
    var q, r := size / 512, size % 512;
    var u := ToSizeT(size);
    if size < 0 {
      assert u == size + SizeTRange;
      DivModUnique(u, 0x80_0000_0000_0000 + q, r);
      var w := 0x80_0000_0000_0000 + q + 1;
      assert w % SizeTRange == w;
      if q + 1 < 0 {
        ModIntRange(w, 0x7F_FFFF, IntRange + q + 1);
      } else {
        ModIntRange(w, 0x80_0000, 0);
      }
      if r == 0 {
        DivModUnique(-size, -q, 0);
      } else {
        DivModUnique(-size, -q - 1, 512 - r);
      }
    } else {
      assert u == size;
      assert (u / 512 + 1) % SizeTRange == u / 512 + 1;
    }
  }

  /** The zero bytes that pad the last content record of an entry of `size` bytes. */
  function Padding(size: nat): (p: nat)
    ensures p < 512
    ensures (size + p) % 512 == 0
  {
    (512 - size % 512) % 512
  }

  /** The content records of an entry hold exactly its bytes and the padding after them. */
  lemma SkipCoversContentAndPadding(size: nat)
    ensures (RecordsToSkip(size) - 1) * 512 == size + Padding(size)
  {
    var q, r := size / 512, size % 512;
    assert size == q * 512 + r;
    if r == 0 {
      assert Padding(size) == 0;
    } else {
      assert Padding(size) == 512 - r;
    }
  }
}
