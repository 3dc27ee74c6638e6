/**
 * Language selection and string-table lookup of the recovery UI
 * (bootable/recovery/multilingual.c over the table of
 * bootable/recovery/ml_string.h).
 *
 * The translated texts are not modelled: an entry of `g_ml_str` is its
 * (language, page name) key, and the `header`/`menu` arrays a fetch hands
 * out are named by the index of the entry that holds them.
 */
module Multilingual {
  import opened Common

  // Language codes, in the order of `supported_lang`.
  const EN: int := 0
  const ZH_CN: int := 1
  const DE: int := 2
  const ES: int := 3
  const FR: int := 4
  const PT: int := 5
  const RU: int := 6

  const DefaultLang: int := EN
  const PageCount: nat := 3

  /** `sizeof(name)` for a `char *` on the 32-bit targets: the bytes strncmp compares. */
  const PointerSize: nat := 4

  const SupportedLang: seq<int> := [EN, ZH_CN, DE, ES, FR, PT, RU]
  const SupportedLangCnt: nat := 7

  /** The key of one entry of `g_ml_str`. */
  datatype MlKey = MlKey(lang: int, name: string)

  /** The keys of `g_ml_str`, in table order. */
  const MlTable: seq<MlKey> := [
    MlKey(EN, "main"), MlKey(EN, "wipe_data"), MlKey(EN, "updater"),
    MlKey(ZH_CN, "main"), MlKey(ZH_CN, "wipe_data"), MlKey(ZH_CN, "updater"),
    MlKey(DE, "main"), MlKey(DE, "wipe_data"), MlKey(DE, "updater"),
    MlKey(ES, "main"), MlKey(ES, "wipe_data"), MlKey(ES, "updater"),
    MlKey(FR, "main"), MlKey(FR, "wipe_data"), MlKey(FR, "updater"),
    MlKey(PT, "main"), MlKey(PT, "wipe_data"), MlKey(PT, "updater"),
    MlKey(RU, "main"), MlKey(RU, "wipe_data"), MlKey(RU, "updater")
  ]

  /** The three pages every language provides, in table order. */
  const PageNames: seq<string> := ["main", "wipe_data", "updater"]

  /** A page name carries no NUL of its own. */
  predicate NulFree(s: string)
  {
    forall k :: 0 <= k < |s| ==> s[k] != '\0'
  }

  /** The character at `k` of the C string `s`, NUL from its end on. */
  function CharAt(s: string, k: nat): char
  {
    if k < |s| then s[k] else '\0'
  }

  /** `strncmp(a, b, n) == 0`: equal up to `n` characters or up to a shared NUL. */
  function StrnEqual(a: string, b: string, n: nat): (eq: bool)
    decreases n
  {
    n == 0 || (CharAt(a, 0) == CharAt(b, 0) && (CharAt(a, 0) == '\0' || StrnEqual(a[1..], b[1..], n - 1)))
  }

  /** The first `n` characters of `s`, or all of it when shorter. */
  function Prefix(s: string, n: nat): string
  {
    if |s| <= n then s else s[..n]
  }

  /** For NUL-free strings, strncmp agrees exactly when the first `n` characters agree. */
  lemma {:induction false} StrnEqualPrefix(a: string, b: string, n: nat)
    requires NulFree(a) && NulFree(b)
    ensures StrnEqual(a, b, n) <==> Prefix(a, n) == Prefix(b, n)
    decreases n
  {
    if n > 0 && |a| > 0 && |b| > 0 {
      assert NulFree(a[1..]) && NulFree(b[1..]);
      StrnEqualPrefix(a[1..], b[1..], n - 1);
      if a[0] == b[0] {
        assert Prefix(a, n) == [a[0]] + Prefix(a[1..], n - 1);
        assert Prefix(b, n) == [b[0]] + Prefix(b[1..], n - 1);
      } else {
        assert Prefix(a, n)[0] != Prefix(b, n)[0];
      }
    } else if n > 0 && |a| > 0 {
      assert Prefix(a, n)[0] == a[0];
    } else if n > 0 && |b| > 0 {
      assert Prefix(b, n)[0] == b[0];
    }
  }

  /** Entry `i` is the one ml_string_fetch takes for `language` and `name`. */
  predicate EntryMatches(i: nat, language: int, name: string)
    requires i < |MlTable|
  {
    MlTable[i].lang == language && StrnEqual(MlTable[i].name, name, PointerSize)
  }

  /** The first matching entry among the first `supported_lang_cnt * PAGE_COUNT`. */
  function FirstMatch(language: int, name: string, from: nat): (r: Option<nat>)
    requires from <= SupportedLangCnt * PageCount
    ensures r.Some? ==> from <= r.value < SupportedLangCnt * PageCount && EntryMatches(r.value, language, name)
    ensures r.Some? ==> forall i :: from <= i < r.value ==> !EntryMatches(i, language, name)
    ensures r.None? ==> forall i :: from <= i < SupportedLangCnt * PageCount ==> !EntryMatches(i, language, name)
    decreases SupportedLangCnt * PageCount - from
  {
    if from == SupportedLangCnt * PageCount then None
    else if EntryMatches(from, language, name) then Some(from)
    else FirstMatch(language, name, from + 1)
  }

  /** The table lists each supported language's three pages in order. */
  lemma TableLayout(i: nat)
    requires i < SupportedLangCnt * PageCount
    ensures i < |MlTable| && MlTable[i] == MlKey(SupportedLang[i / 3], PageNames[i % 3])
  {
  }

  /** The three page names stay apart under a 4-byte strncmp. */
  lemma PageNamesDistinct(p: nat, q: nat)
    requires p < PageCount && q < PageCount
    ensures StrnEqual(PageNames[p], PageNames[q], PointerSize) <==> p == q
  {
    StrnEqualPrefix(PageNames[p], PageNames[q], PointerSize);
    assert Prefix("main", 4) == "main";
    assert Prefix("wipe_data", 4) == "wipe";
    assert Prefix("updater", 4) == "upda";
  }

  /** Entry `i` matches a supported language's page exactly when it sits at `3 * language + page`. */
  lemma EntryMatchesAt(i: nat, language: int, page: nat)
    requires i < SupportedLangCnt * PageCount
    requires 0 <= language < SupportedLangCnt && page < PageCount
    ensures i < |MlTable|
    ensures EntryMatches(i, language, PageNames[page]) <==> i == 3 * language + page
  {
    TableLayout(i);
    PageNamesDistinct(i % 3, page);
    assert SupportedLang[i / 3] == i / 3;
    assert i == 3 * (i / 3) + i % 3;
  }

  /**
   * With the shipped table, a supported language and one of its three page
   * names match exactly one entry, the one at `3 * language + page`.
   */
  lemma ShippedTableLookup(language: int, page: nat)
    requires 0 <= language < SupportedLangCnt && page < PageCount
    ensures forall i :: 0 <= i < |MlTable| ==> (EntryMatches(i, language, PageNames[page]) <==> i == 3 * language + page)
    ensures FirstMatch(language, PageNames[page], 0) == Some(3 * language + page)
  {
    assert |MlTable| == SupportedLangCnt * PageCount;
    forall i | 0 <= i < |MlTable|
      ensures EntryMatches(i, language, PageNames[page]) <==> i == 3 * language + page
    {
      EntryMatchesAt(i, language, page);
    }
    FirstMatchAt(language, PageNames[page], 0, 3 * language + page);
  }

  /** The search from `from` returns the first matching entry at or after `from`. */
  lemma {:induction false} FirstMatchAt(language: int, name: string, from: nat, j: nat)
    requires from <= j < SupportedLangCnt * PageCount
    requires EntryMatches(j, language, name)
    requires forall i :: from <= i < j ==> !EntryMatches(i, language, name)
    ensures FirstMatch(language, name, from) == Some(j)
    decreases j - from
  {
    if from < j {
      FirstMatchAt(language, name, from + 1, j);
    }
  }

  /** The static `language` of the module. */
  class LanguageState {
    var language: int

    constructor ()
      ensures language == DefaultLang
    {
      language := DefaultLang;
    }

    /**
     * ml_set_language: fall back to the default above `supported_lang_cnt`,
     * otherwise take `l` as given (the test is strict, so
     * `supported_lang_cnt` itself, and any negative value, is taken).
     */
    method SetLanguage(l: int) returns (r: int)
      modifies this
      ensures r == 0
      ensures language == if l > SupportedLangCnt then DefaultLang else l
    {
      if l > SupportedLangCnt {
        language := DefaultLang;
        return 0;
      }
      language := l;
      return 0;
    }

    /** ml_set_language as evidently intended: only a code below `supported_lang_cnt` is taken. */
    method SetLanguageBounded(l: int) returns (r: int)
      modifies this
      ensures r == 0
      ensures language == if 0 <= l < SupportedLangCnt then l else DefaultLang
      ensures 0 <= language < SupportedLangCnt
    {
      if l < 0 || l >= SupportedLangCnt {
        language := DefaultLang;
        return 0;
      }
      language := l;
      return 0;
    }

    /** ml_select_language: the `i`-th supported language; `i` is not checked. */
    method SelectLanguage(i: int) returns (r: int)
      requires 0 <= i < SupportedLangCnt
      modifies this
      ensures r == 0 && language == SupportedLang[i]
    {
      r := SetLanguage(SupportedLang[i]);
      r := 0;
    }

    /**
     * ml_string_fetch: point `header` and `menu` at the arrays of the first
     * entry for the current language whose name agrees with `name` on the
     * first `sizeof(char *)` bytes; leave them as they were otherwise.
     */
    method StringFetch(name: string, header: Option<nat>, menu: Option<nat>)
      returns (r: int, headerOut: Option<nat>, menuOut: Option<nat>)
      ensures r == 0
      ensures FirstMatch(language, name, 0).Some? ==>
                headerOut == FirstMatch(language, name, 0) && menuOut == FirstMatch(language, name, 0)
      ensures FirstMatch(language, name, 0).None? ==> headerOut == header && menuOut == menu
    {
      var max := SupportedLangCnt * PageCount;
      headerOut, menuOut := header, menu;
      var i := 0;
      while i < max
        invariant 0 <= i <= max
        invariant FirstMatch(language, name, 0) == FirstMatch(language, name, i)
      {
        if MlTable[i].lang == language && StrnEqual(MlTable[i].name, name, PointerSize) {
          headerOut, menuOut := Some(i), Some(i);
          break;
        }
        i := i + 1;
      }
      return 0, headerOut, menuOut;
    }
  }

  /**
   * The code `supported_lang_cnt` gets past ml_set_language's test but names
   * no entry, so a fetch for any page leaves `header` and `menu` untouched.
   */
  lemma LanguageSevenMatchesNothing(name: string)
    ensures FirstMatch(SupportedLangCnt, name, 0).None?
  {
    forall i | 0 <= i < SupportedLangCnt * PageCount
      ensures !EntryMatches(i, SupportedLangCnt, name)
    {
      TableLayout(i);
    }
    NoMatchFrom(SupportedLangCnt, name, 0);
  }

  /** No entry from `from` on matches, so the search from there finds nothing. */
  lemma {:induction false} NoMatchFrom(language: int, name: string, from: nat)
    requires from <= SupportedLangCnt * PageCount
    requires forall i :: from <= i < SupportedLangCnt * PageCount ==> !EntryMatches(i, language, name)
    ensures FirstMatch(language, name, from).None?
    decreases SupportedLangCnt * PageCount - from
  {
    if from < SupportedLangCnt * PageCount {
      NoMatchFrom(language, name, from + 1);
    }
  }
}
