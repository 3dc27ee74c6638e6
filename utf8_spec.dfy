/**
 * Reference definitions for the glyph lookup of bootable/recovery/minui/utf8.c.
 *
 * Bytes are unsigned, as `char` is on the ARM targets the recovery image is
 * built for. A "packed character" is not a code point: utf8_get_ch joins
 * the raw bytes of one UTF-8 sequence big-endian, and the glyph table and
 * the font file names use that value as the key.
 */
module Utf8Spec {
  import opened Common

  // ---------------------------------------------------------------------
  // Lead bytes and packing (utf8_get_ch)
  // ---------------------------------------------------------------------

  /** 2^k for the eight bit positions of a byte. */
  function Pow2(k: nat): (p: nat)
    requires k < 8
    ensures p > 0
  {
    [1, 2, 4, 8, 16, 32, 64, 128][k]
  }

  /** The byte whose top `i` bits are set and whose other bits are clear. */
  function Ones(i: nat): (b: nat)
    requires i <= 8
    ensures b < 0x100
  {
    [0x00, 0x80, 0xC0, 0xE0, 0xF0, 0xF8, 0xFC, 0xFE, 0xFF][i]
  }

  /**
   * The number of leading 1-bits of `b`: its top `n` bits are set and, when
   * `n < 8`, the next one is clear.
   */
  function LeadingOnes(b: Byte): (n: nat)
    ensures n <= 8
    ensures b >= Ones(n)
    ensures n < 8 ==> b < Ones(n + 1)
  {
    if b < 0x80 then 0
    else if b < 0xC0 then 1
    else if b < 0xE0 then 2
    else if b < 0xF0 then 3
    else if b < 0xF8 then 4
    else if b < 0xFC then 5
    else if b < 0xFE then 6
    else if b < 0xFF then 7
    else 8
  }

  /**
   * Testing bit `7 - i` of a byte whose top `i` bits are set: the bit is
   * clear exactly when the byte is below the one with `i + 1` top bits set.
   */
  lemma BitTest(b: Byte, i: nat)
    requires i < 8 && b >= Ones(i)
    ensures (b / Pow2(7 - i)) % 2 == 0 <==> b < Ones(i + 1)
  {
    if i == 0 {
    } else if i == 1 {
    } else if i == 2 {
    } else if i == 3 {
    } else if i == 4 {
    } else if i == 5 {
    } else if i == 6 {
    } else {
    }
  }

  /**
   * The sequence length utf8_get_ch reports for lead byte `b`: the count of
   * leading 1-bits, except that 0 (ASCII) and more than 6 count as 1.
   */
  function LeadLength(b: Byte): (n: nat)
    ensures 1 <= n <= 6
    ensures n == 1 <==> LeadingOnes(b) <= 1 || LeadingOnes(b) > 6
    ensures 1 < n ==> n == LeadingOnes(b)
  {
    var ones := LeadingOnes(b);
    if ones == 0 || ones > 6 then 1 else ones
  }

  /** A byte of the form 10xxxxxx. */
  predicate IsContinuation(b: Byte)
  {
    0x80 <= b < 0xC0
  }

  /** The bytes of `s` joined big-endian into one number. */
  function BigEndian(s: seq<Byte>): (v: nat)
  {
    if |s| == 0 then 0 else BigEndian(s[..|s| - 1]) * 0x100 + s[|s| - 1]
  }

  /** The `n` low-order bytes of `v`, most significant first. */
  function ToBytes(v: nat, n: nat): (r: seq<Byte>)
    ensures |r| == n
  {
    if n == 0 then [] else ToBytes(v / 0x100, n - 1) + [v % 0x100]
  }

  /** Packing loses nothing: the bytes come back from the packed value and the length. */
  lemma {:induction false} BigEndianRoundTrip(s: seq<Byte>)
    ensures ToBytes(BigEndian(s), |s|) == s
  {
    if |s| > 0 {
      var front := s[..|s| - 1];
      BigEndianRoundTrip(front);
      var v := BigEndian(s);
      assert v / 0x100 == BigEndian(front) && v % 0x100 == s[|s| - 1];
      assert s == front + [s[|s| - 1]];
    }
  }

  /** Two byte sequences of one length with the same packed value are equal. */
  lemma PackingInjective(s: seq<Byte>, t: seq<Byte>)
    requires |s| == |t| && BigEndian(s) == BigEndian(t)
    ensures s == t
  {
    BigEndianRoundTrip(s);
    BigEndianRoundTrip(t);
  }

  /** Only all-zero bytes pack to 0. */
  lemma {:induction false} BigEndianZero(s: seq<Byte>)
    requires BigEndian(s) == 0
    ensures forall k :: 0 <= k < |s| ==> s[k] == 0
  {
    if |s| > 0 {
      BigEndianZero(s[..|s| - 1]);
      assert forall k :: 0 <= k < |s| - 1 ==> s[k] == s[..|s| - 1][k];
    }
  }

  /**
   * What utf8_get_ch returns for the bytes at `p`: `'?'` for a lead byte
   * with more than six leading 1-bits, otherwise the first LeadLength bytes
   * packed big-endian (for an ASCII byte, the byte itself).
   */
  function PackedChar(p: seq<Byte>): (uc: nat)
    requires |p| >= 1 && |p| >= LeadLength(p[0])
  {
    if LeadingOnes(p[0]) > 6 then '?' as nat else BigEndian(p[..LeadLength(p[0])])
  }

  /** An ASCII byte packs to itself, and so does a stray continuation byte. */
  lemma SingleBytePacking(p: seq<Byte>)
    requires |p| >= 1 && p[0] < 0xC0
    ensures LeadLength(p[0]) == 1 && PackedChar(p) == p[0]
  {
    assert p[..1][..0] == [];
    assert BigEndian(p[..1]) == BigEndian(p[..1][..0]) * 0x100 + p[0];
  }

  // ---------------------------------------------------------------------
  // Display-width truncation (utf8_bytes_constraint)
  // ---------------------------------------------------------------------

  /** The length of the C string at the start of `s`. */
  function Strlen(s: seq<Byte>): (n: nat)
    ensures n <= |s|
    ensures forall k :: 0 <= k < n ==> s[k] != 0
    ensures n < |s| ==> s[n] == 0
  {
    if |s| == 0 || s[0] == 0 then 0 else 1 + Strlen(s[1..])
  }

  /** Display width in tenths of a column: 1 for a sequence of up to two bytes, 1.7 for a longer one. */
  function CharWidth(n: nat): (w: nat)
    ensures w == 10 || w == 17
  {
    if n > 2 then 17 else 10
  }

  /**
   * The bytes utf8_bytes_constraint admits from `s` on, when `pending`
   * continuation bytes of the current character are still expected, `width`
   * tenths of a column are used and `limit` tenths are allowed. A character
   * is admitted with its declared length, before its continuation bytes are
   * checked; the scan ends at NUL, at an expected continuation byte that is
   * not one, or at the first character that would not fit.
   */
  function Scan(s: seq<Byte>, pending: nat, width: nat, limit: int): (n: nat)
    decreases |s|
  {
    if |s| == 0 || s[0] == 0 then 0
    else if pending > 0 then
      (if IsContinuation(s[0]) then Scan(s[1..], pending - 1, width, limit) else 0)
    else
      var len := LeadLength(s[0]);
      if width + CharWidth(len) > limit then 0
      else len + Scan(s[1..], len - 1, width + CharWidth(len), limit)
  }

  /** How many one-column characters still fit. */
  function Fit(width: nat, limit: int): (n: nat)
    ensures width + 10 * n <= limit || n == 0
    ensures width + 10 * (n + 1) > limit
  {
    if limit < width then 0 else (limit - width) / 10
  }

  /** On ASCII text one byte is one column, so the scan keeps as many bytes as fit. */
  lemma {:induction false} ScanAscii(s: seq<Byte>, width: nat, limit: int)
    requires forall k :: 0 <= k < Strlen(s) ==> s[k] < 0x80
    ensures Scan(s, 0, width, limit) == if Strlen(s) < Fit(width, limit) then Strlen(s) else Fit(width, limit)
    decreases |s|
  {
    if |s| > 0 && s[0] != 0 {
      assert LeadLength(s[0]) == 1;
      assert forall k :: 0 <= k < Strlen(s[1..]) ==> s[1..][k] == s[k + 1];
      ScanAscii(s[1..], width + 10, limit);
    }
  }

  /** A wider budget never admits fewer bytes. */
  lemma {:induction false} ScanMonotone(s: seq<Byte>, pending: nat, width: nat, limit1: int, limit2: int)
    requires limit1 <= limit2
    ensures Scan(s, pending, width, limit1) <= Scan(s, pending, width, limit2)
    decreases |s|
  {
    if |s| > 0 && s[0] != 0 {
      if pending > 0 {
        ScanMonotone(s[1..], pending - 1, width, limit1, limit2);
      } else {
        var len := LeadLength(s[0]);
        ScanMonotone(s[1..], len - 1, width + CharWidth(len), limit1, limit2);
      }
    }
  }

  /**
   * The admitted bytes run past the string by at most the missing tail of
   * one truncated character: the declared length is counted before the
   * continuation bytes are seen.
   */
  lemma {:induction false} ScanBound(s: seq<Byte>, pending: nat, width: nat, limit: int)
    requires pending <= 5
    ensures Scan(s, pending, width, limit) + pending <= Strlen(s) + 5
    decreases |s|
  {
    if |s| > 0 && s[0] != 0 {
      if pending > 0 {
        ScanBound(s[1..], pending - 1, width, limit);
      } else {
        var len := LeadLength(s[0]);
        ScanBound(s[1..], len - 1, width + CharWidth(len), limit);
      }
    }
  }

  /** Text that is only ASCII, on a budget of `charNum - 1` columns. */
  lemma AsciiTruncation(s: seq<Byte>, charNum: int)
    requires forall k :: 0 <= k < Strlen(s) ==> s[k] < 0x80
    ensures 1 + Scan(s, 0, 0, 10 * (charNum - 1))
            == 1 + (if charNum - 1 <= 0 then 0 else if Strlen(s) < charNum - 1 then Strlen(s) else charNum - 1)
  {
    ScanAscii(s, 0, 10 * (charNum - 1));
  }

  // ---------------------------------------------------------------------
  // Special characters (g_special_char, get_special_char_map)
  // ---------------------------------------------------------------------

  /** A character that cannot appear in a file name, and the name its glyph file has instead. */
  datatype SpecialChar = SpecialChar(c: Byte, str: seq<Byte>, strlen: nat)

  /** The table before its `{0, "", 0}` terminator. */
  const SpecialChars: seq<SpecialChar> := [
    SpecialChar('/' as Byte, Ascii("slash"), 5),
    SpecialChar('*' as Byte, Ascii("asterisk"), 8),
    SpecialChar('?' as Byte, Ascii("question"), 8)
  ]

  /** The first entry of `table` for `c`. */
  function FirstSpecial(table: seq<SpecialChar>, c: Byte): (r: Option<SpecialChar>)
    ensures r.Some? <==> exists k :: 0 <= k < |table| && table[k].c == c
    ensures r.Some? ==> r.value in table && r.value.c == c
  {
    if |table| == 0 then None
    else if table[0].c == c then Some(table[0])
    else FirstSpecial(table[1..], c)
  }

  /** The special-character entry for `c`, if any. */
  function SpecialEntry(c: Byte): Option<SpecialChar>
  {
    FirstSpecial(SpecialChars, c)
  }

  /** Exactly '/', '*' and '?' are special, each with its own file name. */
  lemma SpecialCharacters(c: Byte)
    ensures SpecialEntry(c).Some? <==> c == '/' as Byte || c == '*' as Byte || c == '?' as Byte
    ensures SpecialEntry(c).Some? ==> SpecialEntry(c).value.strlen == |SpecialEntry(c).value.str|
    ensures c == '/' as Byte ==> SpecialEntry(c) == Some(SpecialChars[0])
    ensures c == '*' as Byte ==> SpecialEntry(c) == Some(SpecialChars[1])
    ensures c == '?' as Byte ==> SpecialEntry(c) == Some(SpecialChars[2])
  {
    assert SpecialChars[0].c == '/' as Byte && SpecialChars[1].c == '*' as Byte && SpecialChars[2].c == '?' as Byte;
  }

  // ---------------------------------------------------------------------
  // Font archive records (lookup_tar)
  // ---------------------------------------------------------------------

  const TarUnit: nat := 512
  const TarDir: seq<Byte> := Ascii("recovery_fonts")
  const TarDirLen: nat := 14
  const TarFnOffset: nat := 15

  /** The 512-byte header at `p` names a file under "recovery_fonts/", not the directory itself. */
  predicate IsFontRecord(tar: seq<Byte>, p: nat)
    requires p + TarUnit <= |tar|
  {
    tar[p..p + TarDirLen] == TarDir && tar[p + TarFnOffset] != 0
  }

  /**
   * The file name in the header at `p` is the one for `inuc`: for a special
   * character (judged on the low byte of `inuc`, as the conversion to
   * `char` truncates) the name starts with its table name; otherwise the
   * name's first packed character is `inuc` and a '.' follows it.
   */
  predicate NameMatches(tar: seq<Byte>, p: nat, inuc: nat)
    requires p + TarUnit <= |tar|
  {
    var name := tar[p + TarFnOffset..];
    match SpecialEntry(inuc % 0x100)
    case Some(e) => e.strlen <= |name| && name[..e.strlen] == e.str
    case None => PackedChar(name) == inuc && name[LeadLength(name[0])] == '.' as Byte
  }

  /** The record at `p` is one lookup_tar visits and accepts for `inuc`. */
  predicate RecordMatches(tar: seq<Byte>, p: nat, inuc: nat)
  {
    p % TarUnit == 0 && p + TarUnit < |tar| && IsFontRecord(tar, p) && NameMatches(tar, p, inuc)
  }

  /** No record is ever accepted for 0, the value that marks an empty glyph slot. */
  lemma NoRecordForZero(tar: seq<Byte>, p: nat)
    ensures !RecordMatches(tar, p, 0)
  {
    if p % TarUnit == 0 && p + TarUnit < |tar| && IsFontRecord(tar, p) {
      var name := tar[p + TarFnOffset..];
      SpecialCharacters(0);
      var n := LeadLength(name[0]);
      if LeadingOnes(name[0]) <= 6 && BigEndian(name[..n]) == 0 {
        assert name[..n][0] == tar[p + TarFnOffset];
        BigEndianZero(name[..n]);
      }
    }
  }

  // ---------------------------------------------------------------------
  // PGM headers (pgm_get_data)
  // ---------------------------------------------------------------------

  /** pgm_get_data looks at no more than this many bytes. */
  const PgmWindow: nat := 32

  /** The first field of a binary PGM, "P5", under pgm_get_data's digit arithmetic. */
  const PgmMagic: int := 325

  /** The geometry pgm_get_data fills in: width, height and the offset of the pixels. */
  datatype PgmHeader = PgmHeader(width: int, height: int, data: nat)

  predicate IsSep(b: Byte)
  {
    b == '\n' as Byte || b == ' ' as Byte
  }

  /** `v = v * 10 + p[i] - '0'` over a field, with no check that the bytes are digits. */
  function FieldValue(s: seq<Byte>): int
  {
    if |s| == 0 then 0 else FieldValue(s[..|s| - 1]) * 10 + s[|s| - 1] - '0' as int
  }

  /** "P5" gives 325, since 'P' - '0' is 32. */
  lemma P5Magic()
    ensures FieldValue(Ascii("P5")) == PgmMagic
  {
    var p5 := Ascii("P5");
    assert p5[..1][..0] == [];
    assert p5[..1] == [80];
  }

  /** The fields of `s` between separators; always at least one, possibly empty. */
  function Split(s: seq<Byte>): (fields: seq<seq<Byte>>)
    ensures |fields| >= 1
    ensures forall j :: 0 <= j < |fields| ==> forall b :: b in fields[j] ==> !IsSep(b)
  {
    if |s| == 0 then [[]]
    else
      var front := Split(s[..|s| - 1]);
      var c := s[|s| - 1];
      if IsSep(c) then front + [[]]
      else front[..|front| - 1] + [front[|front| - 1] + [c]]
  }

  /** The length of the fields joined back with one separator between each two. */
  function Joined(fields: seq<seq<Byte>>): nat
    requires |fields| >= 1
  {
    if |fields| == 1 then |fields[0]| else Joined(fields[..|fields| - 1]) + 1 + |fields[|fields| - 1]|
  }

  /** Splitting keeps every byte: the fields and the separators make up `s`. */
  lemma {:induction false} SplitLength(s: seq<Byte>)
    ensures Joined(Split(s)) == |s|
  {
    if |s| > 0 {
      var front := Split(s[..|s| - 1]);
      SplitLength(s[..|s| - 1]);
      var c := s[|s| - 1];
      var fields := Split(s);
      if IsSep(c) {
        assert fields[..|fields| - 1] == front;
      } else if |front| > 1 {
        assert fields[..|fields| - 1] == front[..|front| - 1];
      }
    }
  }

  /** Splitting one more byte: a separator opens a new field, anything else extends the last. */
  lemma SplitStep(s: seq<Byte>, i: nat)
    requires i < |s|
    ensures Split(s[..i + 1]) == if IsSep(s[i]) then Split(s[..i]) + [[]]
      else Split(s[..i])[..|Split(s[..i])| - 1] + [Split(s[..i])[|Split(s[..i])| - 1] + [s[i]]]
  {
    assert s[..i + 1][..i] == s[..i];
  }

  /** A byte that is not a separator extends the current field and leaves the closed ones. */
  lemma FieldByte(s: seq<Byte>, i: nat, k: nat)
    requires i < |s| && !IsSep(s[i]) && |Split(s[..i])| == k + 1
    ensures |Split(s[..i + 1])| == k + 1
    ensures FieldValue(Split(s[..i + 1])[k]) == FieldValue(Split(s[..i])[k]) * 10 + s[i] - '0' as int
    ensures Split(s[..i + 1])[..k] == Split(s[..i])[..k]
  {
    SplitStep(s, i);
    var last := Split(s[..i + 1])[k];
    assert last[..|last| - 1] == Split(s[..i])[k];
  }

  /** A separator closes the current field and opens an empty one. */
  lemma FieldSep(s: seq<Byte>, i: nat, k: nat)
    requires i < |s| && IsSep(s[i]) && |Split(s[..i])| == k + 1
    ensures Split(s[..i + 1]) == Split(s[..i]) + [[]]
  {
    SplitStep(s, i);
  }

  /**
   * Reading further never changes a field already closed by a separator,
   * and never removes a field.
   */
  lemma {:induction false} SplitPrefix(s: seq<Byte>, i: nat, n: nat)
    requires i <= n <= |s|
    ensures |Split(s[..i])| <= |Split(s[..n])|
    ensures forall j :: 0 <= j < |Split(s[..i])| - 1 ==> Split(s[..n])[j] == Split(s[..i])[j]
    decreases n - i
  {
    if i < n {
      SplitPrefix(s, i, n - 1);
      SplitStep(s, n - 1);
    }
  }

  /**
   * After the separator at `i` closes field `k` (with `k + 2` fields so
   * far), the fields up to `k` are those of the whole window.
   */
  lemma ClosedFields(s: seq<Byte>, i: nat, k: nat)
    requires i < |s| && |Split(s[..i + 1])| == k + 2
    ensures |Split(s)| >= k + 2
    ensures forall j :: 0 <= j <= k ==> Split(s)[j] == Split(s[..i + 1])[j]
  {
    SplitPrefix(s, i + 1, |s|);
    assert s[..|s|] == s;
  }

  /** The separator at `i` is the fourth: the pixels start at `i + 1`. */
  lemma FourthSeparator(s: seq<Byte>, i: nat)
    requires i < |s| && |Split(s[..i + 1])| == 5 && Split(s[..i + 1])[4] == []
    ensures |Split(s)| >= 5
    ensures Split(s)[..4] == Split(s[..i + 1])[..4]
    ensures Joined(Split(s)[..4]) + 1 == i + 1
  {
    var fields := Split(s[..i + 1]);
    ClosedFields(s, i, 3);
    SplitLength(s[..i + 1]);
    assert fields[..|fields| - 1] == fields[..4];
  }

  /**
   * What pgm_get_data makes of the first 32 bytes at `buf`: -2 without any
   * separator, -1 when the first field is not "P5", -2 with fewer than four
   * separators, and otherwise width and height from the second and third
   * fields and the pixels just after the fourth separator.
   */
  function PgmParse(buf: seq<Byte>): (r: (int, PgmHeader))
    requires |buf| >= PgmWindow
    ensures r.0 == 0 || r.0 == -1 || r.0 == -2
    ensures r.0 == 0 ==> r.1.data <= PgmWindow
  {
    var fields := Split(buf[..PgmWindow]);
    SplitLength(buf[..PgmWindow]);
    if |fields| < 2 then (-2, PgmHeader(0, 0, 0))
    else if FieldValue(fields[0]) != PgmMagic then (-1, PgmHeader(0, 0, 0))
    else if |fields| < 5 then (-2, PgmHeader(0, 0, 0))
    else
      JoinedPrefix(fields, 4);
      (0, PgmHeader(FieldValue(fields[1]), FieldValue(fields[2]), Joined(fields[..4]) + 1))
  }

  /**
   * What pgm_get_data knows after the first `i` bytes of the window: `k`
   * separators seen, `v` the value of the open field, the first field was
   * "P5" once closed, and width and height recorded once their fields closed.
   */
  predicate PgmScanState(w: seq<Byte>, i: nat, k: nat, v: int, width: int, height: int)
  {
    && i <= |w| && k <= 3
    && |Split(w[..i])| == k + 1
    && v == FieldValue(Split(w[..i])[k])
    && (k >= 1 ==> FieldValue(Split(w[..i])[0]) == PgmMagic)
    && (k >= 2 ==> width == FieldValue(Split(w[..i])[1]))
    && (k >= 3 ==> height == FieldValue(Split(w[..i])[2]))
  }

  /** A digit (or any non-separator) byte: `v = v * 10 + b - '0'`. */
  lemma PgmByteStep(w: seq<Byte>, i: nat, k: nat, v: int, width: int, height: int)
    requires PgmScanState(w, i, k, v, width, height) && i < |w| && !IsSep(w[i])
    ensures PgmScanState(w, i + 1, k, v * 10 + w[i] - '0' as int, width, height)
  {
    FieldByte(w, i, k);
    var next := Split(w[..i + 1]);
    var fields := Split(w[..i]);
    assert forall j :: 0 <= j < k ==> next[j] == next[..k][j] == fields[..k][j] == fields[j];
  }

  /** A separator that is not the fourth: record the field it closes. */
  lemma PgmSepStep(w: seq<Byte>, i: nat, k: nat, v: int, width: int, height: int)
    requires PgmScanState(w, i, k, v, width, height) && i < |w| && IsSep(w[i])
    requires k < 3 && (k == 0 ==> v == PgmMagic)
    ensures PgmScanState(w, i + 1, k + 1, 0, if k + 1 == 2 then v else width, if k + 1 == 3 then v else height)
  {
    FieldSep(w, i, k);
  }

  /** A separator that ends a first field other than "P5" gives -1. */
  lemma ParseBadMagic(buf: seq<Byte>, i: nat, v: int, width: int, height: int)
    requires |buf| >= PgmWindow && i < PgmWindow
    requires PgmScanState(buf[..PgmWindow], i, 0, v, width, height) && IsSep(buf[i]) && v != PgmMagic
    ensures PgmParse(buf).0 == -1
  {
    FieldSep(buf[..PgmWindow], i, 0);
    ClosedFields(buf[..PgmWindow], i, 0);
  }

  /** A fourth separator at `i` after a "P5" field gives 0 and the fields it closed. */
  lemma ParseHeader(buf: seq<Byte>, i: nat, v: int, width: int, height: int)
    requires |buf| >= PgmWindow && i < PgmWindow
    requires PgmScanState(buf[..PgmWindow], i, 3, v, width, height) && IsSep(buf[i])
    ensures PgmParse(buf) == (0, PgmHeader(width, height, i + 1))
  {
    FieldSep(buf[..PgmWindow], i, 3);
    var fields := Split(buf[..PgmWindow][..i + 1]);
    assert fields[..4] == Split(buf[..PgmWindow][..i]);
    FourthSeparator(buf[..PgmWindow], i);
    assert Split(buf[..PgmWindow])[1] == Split(buf[..PgmWindow])[..4][1] == fields[..4][1] == fields[1];
    assert Split(buf[..PgmWindow])[2] == Split(buf[..PgmWindow])[..4][2] == fields[..4][2] == fields[2];
  }

  /** Fewer than four separators in the window, after a "P5" field if any, give -2. */
  lemma ParseShort(buf: seq<Byte>, k: nat, v: int, width: int, height: int)
    requires |buf| >= PgmWindow
    requires PgmScanState(buf[..PgmWindow], PgmWindow, k, v, width, height)
    ensures PgmParse(buf).0 == -2
  {
    assert buf[..PgmWindow][..PgmWindow] == buf[..PgmWindow];
  }

  /** Joining a prefix of the fields gives no more than joining them all. */
  lemma {:induction false} JoinedPrefix(fields: seq<seq<Byte>>, m: nat)
    requires 1 <= m < |fields|
    ensures Joined(fields[..m]) + 1 <= Joined(fields)
    decreases |fields|
  {
    assert fields[..|fields| - 1][..m] == fields[..m];
    if m < |fields| - 1 {
      JoinedPrefix(fields[..|fields| - 1], m);
    }
  }
}
