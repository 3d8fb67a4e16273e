/** Row building of the currency rates table: the map/filter that turns the
    currency metadata object and the rate object into display rows. */
module CurrencyRows {

  datatype Option<+T> = None | Some(value: T)

  // ---------------------------------------------------------------------------
  // Strings: ASCII lower-casing and JavaScript's `slice(0, n)`
  // ---------------------------------------------------------------------------

  predicate IsUpperAscii(c: char) { 'A' <= c <= 'Z' }

  function LowerChar(c: char): char
  {
    if IsUpperAscii(c) then (c as int + 32) as char else c
  }

  /** `s.toLowerCase()`, restricted to ASCII. */
  function Lower(s: string): (r: string)
    ensures |r| == |s|
    ensures IsLowerAscii(r)
    ensures forall i :: 0 <= i < |s| && !IsUpperAscii(s[i]) ==> r[i] == s[i]
    ensures forall i :: 0 <= i < |s| && IsUpperAscii(s[i]) ==>
              'a' <= r[i] <= 'z' && r[i] as int - 'a' as int == s[i] as int - 'A' as int
  {
    seq(|s|, i requires 0 <= i < |s| => LowerChar(s[i]))
  }

  predicate IsLowerAscii(s: string)
  {
    forall i :: 0 <= i < |s| ==> !IsUpperAscii(s[i])
  }

  /** Lower-casing is idempotent. */
  lemma LowerIdempotent(s: string)
    ensures Lower(Lower(s)) == Lower(s)
  {
  }

  /** `s.slice(0, n)`: the first n characters, or all of s when it is shorter. */
  function SliceTo(s: string, n: nat): (r: string)
    ensures |r| == if |s| < n then |s| else n
    ensures r == s[..|r|]
  {
    if |s| <= n then s else s[..n]
  }

  /** `code.slice(0, 2).toLowerCase()`: the flag / filter prefix of a code. */
  function Prefix(code: string): (p: string)
    ensures |p| == if |code| < 2 then |code| else 2
    ensures IsLowerAscii(p)
    ensures p == Lower(code)[..|p|]
  {
    Lower(SliceTo(code, 2))
  }

  /** The prefix does not depend on the case of the code. */
  lemma PrefixIgnoresCase(code: string)
    ensures Prefix(Lower(code)) == Prefix(code)
  {
  }

  // ---------------------------------------------------------------------------
  // The fixed filter list and flag URLs
  // ---------------------------------------------------------------------------

  /** `IGNORED_COUNTRY_CODES`: prefixes whose codes get no row (written as
      five displays, one per source line, so the verifier can unfold it). */
  const IgnoredCountryCodes: seq<string> :=
    ["10", "eo", "av", "aa", "ap", "1i", "ak", "en", "an", "bc", "bu", "ce", "dy"] +
    ["dc", "df", "da", "cs", "ks", "fx", "fl", "fe", "ft", "ka", "kl", "kd", "kc"] +
    ["ic", "hb", "ho", "ok", "on", "op", "qt", "rp", "tu", "or", "qn", "rv", "su"] +
    ["ld", "sp", "wa", "xb", "le", "we", "mb", "xo", "xp", "xc", "ze", "xt", "zi"] +
    ["mi", "xd", "xe", "xa", "xl", "wo", "xr", "xm"]

  /** The filter test at the top of the per-code callback. */
  predicate IsIgnored(code: string): (b: bool)
    ensures b ==> |code| >= 2
  {
    IgnoredEntriesArePairs();
    Prefix(code) in IgnoredCountryCodes
  }

  /** Every listed prefix has exactly two characters. */
  lemma IgnoredEntriesArePairs()
    ensures forall p :: p in IgnoredCountryCodes ==> |p| == 2
  {
  }

  /** A code shorter than two characters is never filtered out. */
  lemma ShortCodesAreKept(code: string)
    requires |code| < 2
    ensures !IsIgnored(code)
  {
  }

  /** Filtering is case-insensitive: upper- and lower-case spellings of a code
      are dropped or kept together. */
  lemma IgnoredIgnoresCase(code: string)
    ensures IsIgnored(Lower(code)) <==> IsIgnored(code)
  {
    PrefixIgnoresCase(code);
  }

  const FlagCdnBase: string := "https://flagcdn.com/w40/"
  const FlagSuffix: string := ".png"

  /** `FALLBACK_FLAG_URL`. */
  const FallbackFlagUrl: string := "https://via.placeholder.com/40x30?text=No+Flag"

  /** The flagcdn URL built from a prefix. */
  function FlagUrl(prefix: string): (url: string)
    ensures |url| == |FlagCdnBase| + |prefix| + |FlagSuffix|
    ensures url[..|FlagCdnBase|] == FlagCdnBase
    ensures url[|FlagCdnBase|..|url| - |FlagSuffix|] == prefix
    ensures url[|url| - |FlagSuffix|..] == FlagSuffix
  {
    FlagCdnBase + prefix + FlagSuffix
  }

  /** The prefix can be read back from a flag URL, so distinct prefixes give
      distinct URLs. */
  lemma FlagUrlInjective(a: string, b: string)
    requires FlagUrl(a) == FlagUrl(b)
    ensures a == b
  {
  }

  /** No flag URL coincides with the fallback URL, so a row's flag tells
      whether validation accepted it. */
  lemma FlagUrlIsNotFallback(prefix: string)
    ensures FlagUrl(prefix) != FallbackFlagUrl
  {
  }

  // ---------------------------------------------------------------------------
  // Inputs and rows
  // ---------------------------------------------------------------------------

  /** The metadata of one currency; only `name` is read, and it may be absent. */
  datatype CurrencyInfo = CurrencyInfo(name: Option<string>)

  /** One own property of the currencies object, in `Object.keys` order. A
      JavaScript object has no duplicate keys, so `currencies[code]` is the
      entry's own `info`; `None` is a null or undefined value, which `?.`
      turns into an undefined name. */
  datatype Entry = Entry(code: string, info: Option<CurrencyInfo>)

  /** The rate cell: the looked-up rate, or the string "N/A". */
  datatype RateCell<R> = Rate(value: R) | NotAvailable

  datatype Row<R> = Row(flag: string, country: string, currency: string, rate: RateCell<R>)

  const UnknownName: string := "Unknown"

  /** Whether `currencies[code]?.name` is truthy: present and non-empty. */
  predicate HasName(info: Option<CurrencyInfo>)
  {
    info.Some? && info.value.name.Some? && info.value.name.value != ""
  }

  /** `currencies[code]?.name || "Unknown"`. */
  function DisplayName(info: Option<CurrencyInfo>): (n: string)
    ensures n != ""
    ensures n == UnknownName || (info.Some? && info.value.name == Some(n))
    ensures HasName(info) ==> n == info.value.name.value
  {
    if HasName(info) then info.value.name.value else UnknownName
  }

  /** `rates[code.toLowerCase()] || "N/A"`; `falsy` is JavaScript truthiness
      of a rate (0 and NaN are falsy). */
  function RateFor<R>(code: string, rates: map<string, R>, falsy: R -> bool): (r: RateCell<R>)
    ensures r.Rate? ==> Lower(code) in rates && r.value == rates[Lower(code)] && !falsy(r.value)
    ensures r.NotAvailable? ==> Lower(code) !in rates || falsy(rates[Lower(code)])
  {
    var key := Lower(code);
    if key in rates && !falsy(rates[key]) then Rate(rates[key]) else NotAvailable
  }

  /** The row object built for a code that passed the filter; `valid` is the
      outcome of `validateImage` on a URL. */
  function MakeRow<R>(e: Entry, rates: map<string, R>, valid: string -> bool, falsy: R -> bool): (row: Row<R>)
    ensures row.flag == FlagUrl(Prefix(e.code)) <==> valid(FlagUrl(Prefix(e.code)))
    ensures row.flag != FlagUrl(Prefix(e.code)) ==> row.flag == FallbackFlagUrl
    ensures row.country == row.currency
    ensures HasName(e.info) ==> row.country == e.info.value.name.value
    ensures !HasName(e.info) ==> row.country == UnknownName
    ensures row.rate.Rate? <==> Lower(e.code) in rates && !falsy(rates[Lower(e.code)])
    ensures row.rate.Rate? ==> row.rate.value == rates[Lower(e.code)]
  {
    var flagUrl := FlagUrl(Prefix(e.code));
    FlagUrlIsNotFallback(Prefix(e.code));
    Row(if valid(flagUrl) then flagUrl else FallbackFlagUrl,
        DisplayName(e.info),
        DisplayName(e.info),
        RateFor(e.code, rates, falsy))
  }

  /** The per-code callback: `null` for an ignored code, otherwise the row. */
  function BuildRow<R>(e: Entry, rates: map<string, R>, valid: string -> bool, falsy: R -> bool): (r: Option<Row<R>>)
    ensures r.None? <==> IsIgnored(e.code)
    ensures r.Some? ==> r.value == MakeRow(e, rates, valid, falsy)
    ensures r.Some? ==> WellFormedRow(r.value)
  {
    if IsIgnored(e.code) then None else Some(MakeRow(e, rates, valid, falsy))
  }

  /** `Object.keys(currencies).map(...)`: one result per key, in key order. */
  function MapRows<R>(cs: seq<Entry>, rates: map<string, R>, valid: string -> bool, falsy: R -> bool): (data: seq<Option<Row<R>>>)
    ensures |data| == |cs|
    ensures forall i :: 0 <= i < |cs| ==> (data[i].None? <==> IsIgnored(cs[i].code))
    ensures forall i :: 0 <= i < |cs| && data[i].Some? ==> data[i].value == MakeRow(cs[i], rates, valid, falsy)
  {
    seq(|cs|, i requires 0 <= i < |cs| => BuildRow(cs[i], rates, valid, falsy))
  }

  /** `data.filter((row) => row !== null)`. */
  function Present<T>(s: seq<Option<T>>): (r: seq<T>)
    ensures |r| <= |s|
    ensures forall x :: x in r ==> Some(x) in s
    ensures forall i :: 0 <= i < |s| && s[i].Some? ==> s[i].value in r
  {
    if s == [] then []
    else
      var last := s[|s| - 1];
      Present(s[..|s| - 1]) + (if last.Some? then [last.value] else [])
  }

  /** The positions of `s` that the filter keeps, in increasing order. */
  function SomeIndices<T>(s: seq<Option<T>>): seq<nat>
  {
    if s == [] then []
    else SomeIndices(s[..|s| - 1]) + (if s[|s| - 1].Some? then [|s| - 1] else [])
  }

  /** The filter keeps one element per kept position. */
  lemma {:induction false} PresentLength<T>(s: seq<Option<T>>)
    ensures |Present(s)| == |SomeIndices(s)| <= |s|
  {
    if s != [] {
      PresentLength(s[..|s| - 1]);
    }
  }

  /** Every kept position is a position of `s` holding a non-null element, and
      they come in increasing order. */
  lemma {:induction false} SomeIndicesSorted<T>(s: seq<Option<T>>)
    ensures forall j :: 0 <= j < |SomeIndices(s)| ==> SomeIndices(s)[j] < |s| && s[SomeIndices(s)[j]].Some?
    ensures forall j, k :: 0 <= j < k < |SomeIndices(s)| ==> SomeIndices(s)[j] < SomeIndices(s)[k]
  {
    if s != [] {
      var init := s[..|s| - 1];
      SomeIndicesSorted(init);
    }
  }

  /** The kept positions are exactly the non-null positions. */
  lemma {:induction false} SomeIndicesComplete<T>(s: seq<Option<T>>)
    ensures forall i :: 0 <= i < |s| ==> (s[i].Some? <==> i in SomeIndices(s))
  {
    if s != [] {
      var init := s[..|s| - 1];
      SomeIndicesComplete(init);
      SomeIndicesSorted(init);
    }
  }

  /** The j-th output of the filter is the element at the j-th kept position. */
  lemma {:induction false} PresentAt<T>(s: seq<Option<T>>)
    ensures |Present(s)| == |SomeIndices(s)|
    ensures forall j :: 0 <= j < |SomeIndices(s)| ==>
              SomeIndices(s)[j] < |s| && s[SomeIndices(s)[j]] == Some(Present(s)[j])
  {
    PresentLength(s);
    SomeIndicesSorted(s);
    if s != [] {
      var init := s[..|s| - 1];
      PresentAt(init);
      PresentLength(init);
      SomeIndicesSorted(init);
    }
  }

  /** Filtering distributes over concatenation. */
  lemma {:induction false} PresentAppend<T>(s: seq<Option<T>>, t: seq<Option<T>>)
    ensures Present(s + t) == Present(s) + Present(t)
  {
    if t == [] {
      assert s + t == s;
    } else {
      var t' := t[..|t| - 1];
      assert (s + t)[..|s + t| - 1] == s + t';
      PresentAppend(s, t');
    }
  }

  /** The number of entries whose code is not ignored. */
  function CountKept(cs: seq<Entry>): nat
  {
    if cs == [] then 0
    else CountKept(cs[..|cs| - 1]) + (if IsIgnored(cs[|cs| - 1].code) then 0 else 1)
  }

  /** The filter keeps exactly as many results as there are non-ignored codes. */
  lemma {:induction false} PresentMapRowsCount<R>(cs: seq<Entry>, rates: map<string, R>, valid: string -> bool, falsy: R -> bool)
    ensures |Present(MapRows(cs, rates, valid, falsy))| == CountKept(cs)
  {
    if cs != [] {
      var init := cs[..|cs| - 1];
      var data := MapRows(cs, rates, valid, falsy);
      assert data[..|data| - 1] == MapRows(init, rates, valid, falsy);
      PresentMapRowsCount(init, rates, valid, falsy);
    }
  }

  /** The display rows produced by a successful load: one per non-ignored code,
      so never more than there are keys. */
  function BuildRows<R>(cs: seq<Entry>, rates: map<string, R>, valid: string -> bool, falsy: R -> bool): (rows: seq<Row<R>>)
    ensures |rows| == CountKept(cs) <= |cs|
  {
    PresentMapRowsCount(cs, rates, valid, falsy);
    Present(MapRows(cs, rates, valid, falsy))
  }

  /** The source position of every row: rows come exactly from the codes that
      are not ignored, one each, in key order. */
  function KeptIndices<R>(cs: seq<Entry>, rates: map<string, R>, valid: string -> bool, falsy: R -> bool): seq<nat>
  {
    SomeIndices(MapRows(cs, rates, valid, falsy))
  }

  /** One row per kept position, so never more rows than keys. */
  lemma RowCount<R>(cs: seq<Entry>, rates: map<string, R>, valid: string -> bool, falsy: R -> bool)
    ensures |BuildRows(cs, rates, valid, falsy)| == |KeptIndices(cs, rates, valid, falsy)| <= |cs|
  {
    PresentLength(MapRows(cs, rates, valid, falsy));
  }

  /** The j-th row is the row built from the entry at the j-th kept position,
      and that entry's code is not ignored. */
  lemma RowsComeFromKeptEntries<R>(cs: seq<Entry>, rates: map<string, R>, valid: string -> bool, falsy: R -> bool)
    ensures var rows, idx := BuildRows(cs, rates, valid, falsy), KeptIndices(cs, rates, valid, falsy);
      forall j :: 0 <= j < |idx| ==>
        j < |rows| && idx[j] < |cs| && !IsIgnored(cs[idx[j]].code) && rows[j] == MakeRow(cs[idx[j]], rates, valid, falsy)
  {
    PresentAt(MapRows(cs, rates, valid, falsy));
  }

  /** Rows keep the key order of the currencies object. */
  lemma RowsInKeyOrder<R>(cs: seq<Entry>, rates: map<string, R>, valid: string -> bool, falsy: R -> bool)
    ensures var idx := KeptIndices(cs, rates, valid, falsy);
      forall j, k :: 0 <= j < k < |idx| ==> idx[j] < idx[k]
  {
    SomeIndicesSorted(MapRows(cs, rates, valid, falsy));
  }

  /** An entry gets a row exactly when its code is not ignored. */
  lemma KeptExactlyWhenNotIgnored<R>(cs: seq<Entry>, rates: map<string, R>, valid: string -> bool, falsy: R -> bool)
    ensures var idx := KeptIndices(cs, rates, valid, falsy);
      forall i :: 0 <= i < |cs| ==> (!IsIgnored(cs[i].code) <==> i in idx)
  {
    SomeIndicesComplete(MapRows(cs, rates, valid, falsy));
  }

  /** The rows for a concatenation of key lists are the rows of each part, in
      the same order. */
  lemma BuildRowsAppend<R>(a: seq<Entry>, b: seq<Entry>, rates: map<string, R>, valid: string -> bool, falsy: R -> bool)
    ensures BuildRows(a + b, rates, valid, falsy) == BuildRows(a, rates, valid, falsy) + BuildRows(b, rates, valid, falsy)
  {
    var ma, mb := MapRows(a, rates, valid, falsy), MapRows(b, rates, valid, falsy);
    assert MapRows(a + b, rates, valid, falsy) == ma + mb;
    PresentAppend(ma, mb);
  }

  /** Adding one more key adds at most its own row, at the end. */
  lemma BuildRowsSnoc<R>(cs: seq<Entry>, e: Entry, rates: map<string, R>, valid: string -> bool, falsy: R -> bool)
    ensures BuildRows(cs + [e], rates, valid, falsy)
         == BuildRows(cs, rates, valid, falsy) + (if IsIgnored(e.code) then [] else [MakeRow(e, rates, valid, falsy)])
  {
    var m := MapRows(cs + [e], rates, valid, falsy);
    assert m[..|m| - 1] == MapRows(cs, rates, valid, falsy);
  }

  /** The invariant every displayed row satisfies: its flag is a flagcdn URL
      or the fallback (never empty), and its country and currency columns hold
      the same non-empty name. */
  predicate WellFormedRow<R>(row: Row<R>)
  {
    && (row.flag == FallbackFlagUrl
        || (|row.flag| >= |FlagCdnBase| && row.flag[..|FlagCdnBase|] == FlagCdnBase))
    && row.flag != ""
    && row.country == row.currency
    && row.country != ""
  }

  /** Every row the builder produces is well formed. */
  lemma BuildRowsWellFormed<R>(cs: seq<Entry>, rates: map<string, R>, valid: string -> bool, falsy: R -> bool)
    ensures forall row :: row in BuildRows(cs, rates, valid, falsy) ==> WellFormedRow(row)
  {
  }

  /** When the validator rejects every URL, every row shows the fallback flag. */
  lemma RejectingValidatorGivesFallbacks<R>(cs: seq<Entry>, rates: map<string, R>, valid: string -> bool, falsy: R -> bool)
    requires forall url :: !valid(url)
    ensures forall row :: row in BuildRows(cs, rates, valid, falsy) ==> row.flag == FallbackFlagUrl
  {
  }

  // ---------------------------------------------------------------------------
  // Concrete scenarios, with integer rates whose only falsy value is 0
  // ---------------------------------------------------------------------------

  function IntRateFalsy(r: int): bool { r == 0 }

  lemma TenIsIgnored()
    ensures IsIgnored("10")
  {
    assert Prefix("10") == "10";
  }

  lemma UsdIsKept()
    ensures Prefix("USD") == "us" && !IsIgnored("USD") && Lower("USD") == "usd"
  {
    assert Prefix("USD") == "us";
  }

  /** Metadata {"USD": {name: "US Dollar"}, "10": {name: "Ignored"}} and rates {"usd": 1}.
      `Object.keys` lists the integer-like key "10" first. The "10" entry is
      dropped and the single row is the US dollar at rate 1, with the "us"
      flag when it validates. */
  lemma ScenarioIgnoredKeyDropped(valid: string -> bool)
    ensures BuildRows([Entry("10", Some(CurrencyInfo(Some("Ignored")))),
                       Entry("USD", Some(CurrencyInfo(Some("US Dollar"))))],
                      map["usd" := 1], valid, IntRateFalsy)
         == [Row(if valid(FlagUrl("us")) then FlagUrl("us") else FallbackFlagUrl,
                 "US Dollar", "US Dollar", Rate(1))]
  {
    var ten := Entry("10", Some(CurrencyInfo(Some("Ignored"))));
    var usd := Entry("USD", Some(CurrencyInfo(Some("US Dollar"))));
    var rates := map["usd" := 1];
    TenIsIgnored();
    UsdIsKept();
    BuildRowsSnoc([], ten, rates, valid, IntRateFalsy);
    assert BuildRows([ten], rates, valid, IntRateFalsy) == [] by {
      assert [] + [ten] == [ten];
    }
    BuildRowsSnoc([ten], usd, rates, valid, IntRateFalsy);
    assert [ten] + [usd] == [ten, usd];
    assert BuildRows([ten, usd], rates, valid, IntRateFalsy) == [MakeRow(usd, rates, valid, IntRateFalsy)];
    var row := MakeRow(usd, rates, valid, IntRateFalsy);
    assert row.flag == if valid(FlagUrl("us")) then FlagUrl("us") else FallbackFlagUrl;
    assert row.country == "US Dollar" && row.currency == "US Dollar";
    assert row.rate == Rate(1);
  }

  /** Metadata {"jpy": {name: "Yen"}} with an empty rate map: one row whose rate is
      "N/A". */
  lemma ScenarioMissingRate(valid: string -> bool)
    ensures |BuildRows([Entry("jpy", Some(CurrencyInfo(Some("Yen"))))], map[], valid, IntRateFalsy)| == 1
    ensures BuildRows([Entry("jpy", Some(CurrencyInfo(Some("Yen"))))], map[], valid, IntRateFalsy)[0].rate
         == NotAvailable
  {
    var jpy := Entry("jpy", Some(CurrencyInfo(Some("Yen"))));
    var none: map<string, int> := map[];
    assert Prefix("jpy") == "jp";
    assert !IsIgnored("jpy");
    BuildRowsSnoc([], jpy, none, valid, IntRateFalsy);
    assert [] + [jpy] == [jpy];
    assert BuildRows([jpy], none, valid, IntRateFalsy) == [MakeRow(jpy, none, valid, IntRateFalsy)];
  }

  /** A rate of 0 is falsy, so it is shown as "N/A" like a missing one. */
  lemma ZeroRateIsNotAvailable(e: Entry, rates: map<string, int>, valid: string -> bool)
    requires Lower(e.code) in rates && rates[Lower(e.code)] == 0
    ensures MakeRow(e, rates, valid, IntRateFalsy).rate == NotAvailable
  {
  }
}
