/**
 * The glyph lookup of bootable/recovery/minui/utf8.c: the loops over bytes,
 * font-archive records and PGM headers, and the 200-slot glyph table
 * `g_pgm_font` that utf8_lookup_char fills in place. Each method is proved
 * against the reference definitions of Utf8Spec.
 */
module Utf8 {
  import opened Common
  import opened Utf8Spec

  /**
   * utf8_get_ch: count the leading 1-bits of the lead byte with a moving
   * mask, then pack that many bytes big-endian.
   */
  method Utf8GetCh(p: seq<Byte>) returns (uc: nat, len: nat)
    requires |p| >= 1 && |p| >= LeadLength(p[0])
    ensures len == LeadLength(p[0])
    ensures uc == PackedChar(p)
  {
    var t := 0x80;
    var i := 0;
    while i < 8
      invariant 0 <= i <= 8
      invariant i < 8 ==> t == Pow2(7 - i)
      invariant p[0] >= Ones(i)
    {
      BitTest(p[0], i);
      if (p[0] / t) % 2 == 0 {
        break;
      }
      t := t / 2;
      i := i + 1;
    }
    assert i == LeadingOnes(p[0]);
    if i == 0 {
      len := 1;
      uc := p[0];
      SingleBytePacking(p);
    } else if i > 6 {
      len := 1;
      uc := '?' as nat;
    } else {
      len := i;
      uc := 0;
      var j := 0;
      while j < i
        invariant 0 <= j <= i
        invariant uc == BigEndian(p[..j])
      {
        assert p[..j + 1][..j] == p[..j];
        uc := uc * 0x100 + p[j];
        j := j + 1;
      }
    }
  }

  /**
   * utf8_bytes_constraint: how many bytes (with the terminating NUL) of the
   * C string `s` fit in `charNum - 1` columns, a character of more than two
   * bytes taking 1.7 columns. Widths are kept in tenths of a column.
   */
  method BytesConstraint(s: seq<Byte>, charNum: int) returns (r: int)
    requires 0 in s
    ensures r == 1 + Scan(s, 0, 0, 10 * (charNum - 1))
  {
    var limit := 10 * (charNum - 1);
    var l: nat := 0;
    var total := 0;
    var width: nat := 0;
    var i := 0;
    while s[i] != 0
      invariant 0 <= i < |s| && 0 in s[i..]
      invariant 0 <= l <= 5
      invariant total + Scan(s[i..], l, width, limit) == Scan(s, 0, 0, limit)
      decreases |s| - i
    {
      assert s[i..][1..] == s[i + 1..];
      if l != 0 {
        if !IsContinuation(s[i]) {
          break;
        }
      } else {
        l := LeadLength(s[i]);
        var w := width + CharWidth(l);
        if w > limit {
          break;
        }
        width := w;
        total := total + l;
      }
      i := i + 1;
      l := l - 1;
    }
    r := total + 1;
  }

  /**
   * get_special_char_map: walk the table up to its terminator; on a match
   * report 1 and point `call` at the entry, otherwise report 0 and leave
   * `call` as it was.
   */
  method GetSpecialCharMap(c: Byte, call: Option<SpecialChar>) returns (isSpecial: bool, callOut: Option<SpecialChar>)
    ensures isSpecial <==> SpecialEntry(c).Some?
    ensures callOut == if isSpecial then SpecialEntry(c) else call
  {
    var i := 0;
    while i < |SpecialChars|
      invariant 0 <= i <= |SpecialChars|
      invariant SpecialEntry(c) == FirstSpecial(SpecialChars[i..], c)
    {
      assert SpecialChars[i..][1..] == SpecialChars[i + 1..];
      if c == SpecialChars[i].c {
        return true, Some(SpecialChars[i]);
      }
      i := i + 1;
    }
    return false, call;
  }

  /**
   * pgm_get_data: accumulate `v = v * 10 + b - '0'` over at most 32 bytes;
   * at each ' ' or '\n' close a field: the first must be 325 ("P5"), the
   * second is the width, the third the height, and the pixels start after
   * the fourth.
   */
  method PgmGetData(buf: seq<Byte>) returns (status: int, pf: PgmHeader)
    requires |buf| >= PgmWindow
    ensures status == PgmParse(buf).0
    ensures status == 0 ==> pf == PgmParse(buf).1
  {
    ghost var window := buf[..PgmWindow];
    var k := 0;
    var v := 0;
    var width := 0;
    var height := 0;
    var i := 0;
    while i < PgmWindow
      invariant 0 <= i <= PgmWindow
      invariant PgmScanState(window, i, k, v, width, height)
    {
      if buf[i] == '\n' as Byte || buf[i] == ' ' as Byte {
        if k == 0 && v != PgmMagic {
          ParseBadMagic(buf, i, v, width, height);
          return -1, PgmHeader(width, height, 0);
        }
        if k == 3 {
          ParseHeader(buf, i, v, width, height);
          return 0, PgmHeader(width, height, i + 1);
        }
        PgmSepStep(window, i, k, v, width, height);
        k := k + 1;
        if k == 2 {
          width := v;
        }
        if k == 3 {
          height := v;
        }
        v := 0;
      } else {
        PgmByteStep(window, i, k, v, width, height);
        v := v * 10 + buf[i] - '0' as int;
      }
      i := i + 1;
    }
    ParseShort(buf, k, v, width, height);
    return -2, PgmHeader(width, height, 0);
  }

  /**
   * The body of lookup_tar's loop for the record at `p`: skip anything that
   * is not a file under "recovery_fonts/", then match a special character by
   * its table name and any other character by its packed first character
   * followed by '.'.
   */
  method MatchRecord(tar: seq<Byte>, p: nat, inuc: nat, isSpecial: bool, scm: Option<SpecialChar>)
    returns (ok: bool)
    requires p % TarUnit == 0 && p + TarUnit < |tar|
    requires isSpecial <==> SpecialEntry(inuc % 0x100).Some?
    requires isSpecial ==> scm == SpecialEntry(inuc % 0x100)
    ensures ok == RecordMatches(tar, p, inuc)
  {
    if tar[p..p + TarDirLen] != TarDir || tar[p + TarFnOffset] == 0 {
      return false;
    }
    var name := tar[p + TarFnOffset..];
    if isSpecial {
      var e := scm.value;
      SpecialCharacters(inuc % 0x100);
      return name[..e.strlen] == e.str;
    }
    var uc, ucLen := Utf8GetCh(name);
    return uc == inuc && name[ucLen] == '.' as Byte;
  }

  /**
   * lookup_tar: visit the 512-byte records while the offset is below
   * `tar_len - 512`, and return the offset just after the first header
   * accepted for `inuc`, or None.
   */
  method LookupTar(inuc: nat, tar: seq<Byte>) returns (r: Option<nat>)
    ensures r.Some? ==> && r.value >= TarUnit && r.value % TarUnit == 0 && r.value < |tar|
                        && RecordMatches(tar, r.value - TarUnit, inuc)
    ensures r.Some? ==> forall q :: 0 <= q < r.value - TarUnit ==> !RecordMatches(tar, q, inuc)
    ensures r.None? ==> forall q :: !RecordMatches(tar, q, inuc)
  {
    var isSpecial, scm := GetSpecialCharMap(inuc % 0x100, None);
    var p := 0;
    while p + TarUnit < |tar|
      invariant p % TarUnit == 0
      invariant forall q :: 0 <= q < p ==> !RecordMatches(tar, q, inuc)
      decreases |tar| - p
    {
      var ok := MatchRecord(tar, p, inuc, isSpecial, scm);
      if ok {
        return Some(p + TarUnit);
      }
      p := p + TarUnit;
    }
    return None;
  }

  /** One slot of `g_pgm_font`: the packed character (0 when empty) and its glyph geometry. */
  datatype Glyph = Glyph(utf8Char: nat, width: int, height: int, data: nat)

  /** `pgm_len`: the number of glyph slots. */
  const PgmLen: nat := 200

  /** The slots before the first empty one. */
  function FilledCount(slots: seq<Glyph>): (n: nat)
    ensures n <= |slots|
    ensures forall j :: 0 <= j < n ==> slots[j].utf8Char != 0
    ensures n < |slots| ==> slots[n].utf8Char == 0
  {
    if |slots| == 0 || slots[0].utf8Char == 0 then 0 else 1 + FilledCount(slots[1..])
  }

  /** The slot holding `inuc` among the filled ones, if any. */
  function FindSlot(slots: seq<Glyph>, inuc: nat): (r: Option<nat>)
    ensures r.Some? ==> r.value < FilledCount(slots) && slots[r.value].utf8Char == inuc
    ensures r.Some? ==> forall j :: 0 <= j < r.value ==> slots[j].utf8Char != inuc
    ensures r.None? ==> forall j :: 0 <= j < FilledCount(slots) ==> slots[j].utf8Char != inuc
  {
    if |slots| == 0 || slots[0].utf8Char == 0 then None
    else if slots[0].utf8Char == inuc then Some(0)
    else match FindSlot(slots[1..], inuc)
      case None => None
      case Some(j) => Some(j + 1)
  }

  /**
   * The archive offset `off` is where lookup_tar finds `inuc` (just after
   * the first record accepted for it), and pgm_get_data accepts the header
   * there.
   */
  predicate LookupSpec(tar: seq<Byte>, off: nat, inuc: nat)
  {
    && off >= TarUnit && off % TarUnit == 0 && off < |tar|
    && RecordMatches(tar, off - TarUnit, inuc)
    && (forall q :: 0 <= q < off - TarUnit ==> !RecordMatches(tar, q, inuc))
    && |tar| - off >= PgmWindow && PgmParse(tar[off..]).0 == 0
  }

  /** The slot utf8_lookup_char fills for `inuc` from the header at `off`. */
  function GlyphAt(tar: seq<Byte>, off: nat, inuc: nat): Glyph
    requires LookupSpec(tar, off, inuc)
  {
    var h := PgmParse(tar[off..]).1;
    Glyph(inuc, h.width, h.height, off + h.data)
  }

  /** Only the offset after the first accepted record can satisfy LookupSpec. */
  lemma OnlyFirstRecord(tar: seq<Byte>, off: nat, inuc: nat)
    requires off >= TarUnit && RecordMatches(tar, off - TarUnit, inuc)
    requires forall q :: 0 <= q < off - TarUnit ==> !RecordMatches(tar, q, inuc)
    ensures forall off': nat :: LookupSpec(tar, off', inuc) ==> off' == off
    ensures inuc != 0
  {
    NoRecordForZero(tar, off - TarUnit);
  }

  /** Without an accepted record nothing satisfies LookupSpec. */
  lemma NoRecordNoSpec(tar: seq<Byte>, inuc: nat)
    requires forall q :: !RecordMatches(tar, q, inuc)
    ensures forall off: nat :: !LookupSpec(tar, off, inuc)
  {
  }

  /**
   * The part of utf8_lookup_char after a cache miss with a free slot: find
   * the archive entry with lookup_tar and parse its header with
   * pgm_get_data.
   */
  method FetchGlyph(tar: seq<Byte>, inuc: nat) returns (g: Option<Glyph>)
    requires |tar| % TarUnit == 0
    ensures g.Some? <==> exists off: nat :: LookupSpec(tar, off, inuc)
    ensures g.Some? ==> g.value.utf8Char == inuc != 0
    ensures g.Some? ==> forall off: nat :: LookupSpec(tar, off, inuc) ==> g.value == GlyphAt(tar, off, inuc)
  {
    var p := LookupTar(inuc, tar);
    if p.None? {
      NoRecordNoSpec(tar, inuc);
      return None;
    }
    var off := p.value;
    OnlyFirstRecord(tar, off, inuc);
    var status, pf := PgmGetData(tar[off..]);
    if status != 0 {
      return None;
    }
    assert LookupSpec(tar, off, inuc);
    return Some(Glyph(inuc, pf.width, pf.height, off + pf.data));
  }

  /**
   * The glyph table `g_pgm_font` together with the font archive it is
   * filled from (read once by utf8_init_font).
   */
  class FontCache {
    var slots: array<Glyph>
    var tar: seq<Byte>

    /**
     * A table of 200 slots whose filled slots form a prefix with pairwise
     * distinct characters, over an archive of whole 512-byte records.
     */
    predicate Valid()
      reads this, slots
    {
      && slots.Length == PgmLen
      && |tar| % TarUnit == 0
      && (forall i, j :: 0 <= i < j < slots.Length && slots[i].utf8Char == 0 ==> slots[j].utf8Char == 0)
      && (forall i, j :: 0 <= i < j < slots.Length && slots[i].utf8Char != 0 ==> slots[i].utf8Char != slots[j].utf8Char)
    }

    /** utf8_init_font: an empty table over the archive `archive`. */
    constructor (archive: seq<Byte>)
      requires |archive| % TarUnit == 0
      ensures Valid() && tar == archive
      ensures forall j :: 0 <= j < slots.Length ==> slots[j].utf8Char == 0
    {
      slots := new Glyph[PgmLen](_ => Glyph(0, 0, 0, 0));
      tar := archive;
    }

    /**
     * The cache scan of utf8_lookup_char: stop at the first empty slot or
     * at the slot holding `inuc`.
     */
    method ScanSlots(inuc: nat) returns (i: nat, hit: bool)
      requires Valid()
      ensures hit ==> FindSlot(slots[..], inuc) == Some(i)
      ensures !hit ==> FindSlot(slots[..], inuc).None? && i == FilledCount(slots[..])
    {
      i := 0;
      while i < PgmLen
        invariant 0 <= i <= PgmLen
        invariant forall j :: 0 <= j < i ==> slots[j].utf8Char != 0 && slots[j].utf8Char != inuc
      {
        if slots[i].utf8Char == 0 {
          break;
        }
        if slots[i].utf8Char == inuc {
          FindSlotIs(slots[..], inuc, i);
          return i, true;
        }
        i := i + 1;
      }
      FilledCountIs(slots[..], i);
      FindSlotNone(slots[..], inuc);
      return i, false;
    }

    /**
     * utf8_lookup_char: the index of the glyph for `inuc`. A character
     * already in the table is found without change; otherwise a full table,
     * a missing archive entry or a bad PGM header gives 0 (the '?' slot) and
     * no change; otherwise the first empty slot is filled.
     */
    method LookupChar(inuc: nat) returns (index: nat)
      requires Valid()
      modifies slots
      ensures Valid()
      ensures index < PgmLen
      ensures FindSlot(old(slots[..]), inuc).Some? ==>
                index == FindSlot(old(slots[..]), inuc).value && slots[..] == old(slots[..])
      ensures FindSlot(old(slots[..]), inuc).None? ==>
                (slots[..] != old(slots[..]) <==>
                   FilledCount(old(slots[..])) < PgmLen && exists off: nat :: LookupSpec(tar, off, inuc))
      ensures FindSlot(old(slots[..]), inuc).None? && slots[..] == old(slots[..]) ==> index == 0
      ensures FindSlot(old(slots[..]), inuc).None? && FilledCount(old(slots[..])) < PgmLen ==>
                forall off: nat :: LookupSpec(tar, off, inuc) ==>
                  index == FilledCount(old(slots[..]))
                  && slots[..] == old(slots[..])[index := GlyphAt(tar, off, inuc)]
      ensures slots[..] == old(slots[..]) || FindSlot(slots[..], inuc) == Some(index)
    {
      var i, hit := ScanSlots(inuc);
      if hit {
        return i;
      }
      if i >= PgmLen {
        return 0;
      }
      var g := FetchGlyph(tar, inuc);
      if g.None? {
        return 0;
      }
      ghost var before := slots[..];
      slots[i] := g.value;
      assert slots[..] == before[i := g.value];
      FilledAfterInsert(before, slots[..], i, inuc);
      return i;
    }
  }

  lemma {:induction false} FilledCountIs(slots: seq<Glyph>, i: nat)
    requires i <= |slots|
    requires forall j :: 0 <= j < i ==> slots[j].utf8Char != 0
    requires i < |slots| ==> slots[i].utf8Char == 0
    ensures FilledCount(slots) == i
    decreases i
  {
    if i > 0 {
      assert forall j :: 0 <= j < i - 1 ==> slots[1..][j] == slots[j + 1];
      FilledCountIs(slots[1..], i - 1);
    }
  }

  lemma {:induction false} FindSlotIs(slots: seq<Glyph>, inuc: nat, i: nat)
    requires i < |slots| && slots[i].utf8Char == inuc != 0
    requires forall j :: 0 <= j < i ==> slots[j].utf8Char != 0 && slots[j].utf8Char != inuc
    ensures FindSlot(slots, inuc) == Some(i)
    decreases i
  {
    if i > 0 {
      assert forall j :: 0 <= j < i - 1 ==> slots[1..][j] == slots[j + 1];
      FindSlotIs(slots[1..], inuc, i - 1);
    }
  }

  lemma FindSlotNone(slots: seq<Glyph>, inuc: nat)
    requires forall j :: 0 <= j < FilledCount(slots) ==> slots[j].utf8Char != inuc
    ensures FindSlot(slots, inuc).None?
  {
  }

  /** Filling the first empty slot with a new nonzero character makes it findable there. */
  lemma FilledAfterInsert(before: seq<Glyph>, after: seq<Glyph>, i: nat, inuc: nat)
    requires i < |before| && FilledCount(before) == i && inuc != 0
    requires FindSlot(before, inuc).None?
    requires |after| == |before| && after == before[i := after[i]] && after[i].utf8Char == inuc
    ensures FindSlot(after, inuc) == Some(i)
  {
    FindSlotIs(after, inuc, i);
  }
}
