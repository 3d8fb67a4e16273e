# Currency rates table — a Dafny model

This project models the data side of the currency rates table card of
currency-converter-pro. The card fetches the currency metadata object and the
exchange-rate object for the selected base currency, then builds display rows.
It drops every currency code whose lower-cased two-character prefix is in the
fixed `IGNORED_COUNTRY_CODES` list. Each remaining code becomes one row with:

- a flagcdn flag URL, or the fallback placeholder when the image check rejects it;
- the currency's name in both the country and currency columns, or `"Unknown"`;
- the rate looked up under the lower-cased code, or `"N/A"`.

The card's `loading` / `rowData` state is updated around that step.

- `rows.dfy`, module `CurrencyRows`: the pure row builder. The currencies
  object is an ordered sequence of `Entry(code, info)` in `Object.keys` order.
  The per-code callback is `BuildRow`, the `.map` is `MapRows` and the
  `.filter` is `Present`. `SomeIndices` / `KeptIndices` give the source position
  of every kept row.
- `table.dfy`, module `CurrencyTable`: class `RateTable` holds the card's
  state (`rowData`, `baseCurrency`, `loading`). `Load` is one run of the
  `loadData` effect. It is split into `StartLoad` (before the awaits) and
  `FinishLoad` (after them), so the state seen while the fetches are pending
  is visible.

The image check `validateImage` is a parameter `valid: string -> bool`. It is
applied to the flag URL. JavaScript truthiness of a rate is a parameter
`falsy: R -> bool`, where `R` is the rate type. `fetchAllCurrencies` and
`fetchExchangeRates` are inputs: an `Option` for the first, a function of the
base currency for the second. `None` means the call threw.

Two details of the code shape the model:

- A failed fetch never calls `setRowData` (components/currency-table.tsx:62-63),
  so the previous rows stay. They are not emptied.
- The fallbacks use `||` (components/currency-table.tsx:54-56). So a rate of
  `0` (or any falsy rate) shows `"N/A"`, and an empty name shows `"Unknown"`,
  as well as absent ones.

## Model

| member | source | states |
|---|---|---|
| CurrencyRows.Lower | components/currency-table.tsx:56 | ASCII lower-casing keeps the length, turns each upper-case letter into the lower-case letter at the same alphabet position, and changes no other character |
| CurrencyRows.SliceTo | components/currency-table.tsx:45 | `slice(0, n)` gives the first n characters, or the whole string when it is shorter |
| CurrencyRows.LowerIdempotent | components/currency-table.tsx:45-56 | ASCII lower-casing, used for the prefix and the rate key, is idempotent |
| CurrencyRows.Prefix | components/currency-table.tsx:45 | the prefix has the first two characters of the code (or all of it if shorter), has no upper-case letter, and is the start of the lower-cased code |
| CurrencyRows.PrefixIgnoresCase | components/currency-table.tsx:45 | a code and its lower-cased spelling have the same prefix |
| CurrencyRows.IgnoredEntriesArePairs | components/currency-table.tsx:12-18 | every entry of the ignored list has exactly two characters |
| CurrencyRows.ShortCodesAreKept | components/currency-table.tsx:12-18 | a code shorter than two characters is never filtered out |
| CurrencyRows.IsIgnored | components/currency-table.tsx:45-47 | the filter test; a code it drops has at least two characters |
| CurrencyRows.IgnoredIgnoresCase | components/currency-table.tsx:45-47 | the filter drops a code exactly when it drops its lower-cased spelling |
| CurrencyRows.FlagUrl | components/currency-table.tsx:49 | the flag URL is the flagcdn base, then the prefix, then ".png" |
| CurrencyRows.FlagUrlInjective | components/currency-table.tsx:49 | the prefix can be read back from the flag URL, so different prefixes give different URLs |
| CurrencyRows.FlagUrlIsNotFallback | components/currency-table.tsx:20 | no flagcdn URL equals the fallback URL |
| CurrencyRows.DisplayName | components/currency-table.tsx:54-55 | the shown name is never empty; it is the entry's own name or "Unknown", and it is the name whenever that is present and non-empty |
| CurrencyRows.RateFor | components/currency-table.tsx:56 | a rate is shown only if it is stored under the lower-cased code and is truthy, and then it is that value; "N/A" only if the key is missing or its value is falsy |
| CurrencyRows.MakeRow | components/currency-table.tsx:49-57 | flag is the flagcdn URL exactly when the validator accepts it, and otherwise the fallback; country equals currency and is the name when present and non-empty, else "Unknown"; rate is the value under the lower-cased code exactly when that key exists and is truthy, else "N/A" |
| CurrencyRows.BuildRow | components/currency-table.tsx:44-58 | the callback returns null exactly for an ignored code, and otherwise exactly the row built from the entry, which is well formed |
| CurrencyRows.MapRows | components/currency-table.tsx:44-58 | one result per key, in key order; result i is null exactly when code i is ignored, and otherwise the row built from entry i |
| CurrencyRows.Present | components/currency-table.tsx:61 | the null filter never lengthens its input, outputs only non-null input elements, and keeps every non-null element |
| CurrencyRows.PresentLength | components/currency-table.tsx:61 | the null filter outputs one element per non-null position, never more than its input |
| CurrencyRows.SomeIndicesSorted | components/currency-table.tsx:61 | the kept positions are in range, hold non-null elements, and increase strictly, so order is preserved |
| CurrencyRows.SomeIndicesComplete | components/currency-table.tsx:61 | a position is kept exactly when its element is non-null |
| CurrencyRows.PresentAt | components/currency-table.tsx:61 | the j-th output of the filter is the element at the j-th kept position |
| CurrencyRows.PresentAppend | components/currency-table.tsx:61 | filtering a concatenation is the concatenation of the filtered parts |
| CurrencyRows.PresentMapRowsCount | components/currency-table.tsx:43-61 | filtering the mapped results keeps as many rows as there are non-ignored codes |
| CurrencyRows.BuildRows | components/currency-table.tsx:43-61 | the number of rows equals the number of non-ignored codes, so it is never more than the key count |
| CurrencyRows.RowCount | components/currency-table.tsx:43-61 | there is one row per kept position, so there are never more rows than keys |
| CurrencyRows.RowsComeFromKeptEntries | components/currency-table.tsx:43-61 | the j-th row is the row built from the entry at the j-th kept position, and that entry's code is not ignored |
| CurrencyRows.RowsInKeyOrder | components/currency-table.tsx:43-61 | the kept positions increase strictly, so rows follow the key order of the currencies object |
| CurrencyRows.KeptExactlyWhenNotIgnored | components/currency-table.tsx:45-47 | an entry gets a row exactly when its lower-cased two-character prefix is not in the ignored list |
| CurrencyRows.BuildRowsAppend | components/currency-table.tsx:43-61 | the rows of a concatenated key list are the rows of the first part followed by those of the second |
| CurrencyRows.BuildRowsSnoc | components/currency-table.tsx:44-61 | one more key adds its own row at the end, or nothing when it is ignored |
| CurrencyRows.BuildRowsWellFormed | components/currency-table.tsx:49-57 | every built row has a non-empty flag that is the fallback or a flagcdn URL, and the same non-empty name in country and currency |
| CurrencyRows.RejectingValidatorGivesFallbacks | components/currency-table.tsx:50-53 | when the image check rejects every URL, every row shows the fallback flag |
| CurrencyRows.ScenarioIgnoredKeyDropped | components/currency-table.tsx:43-61 | for metadata {"10": {name: "Ignored"}, "USD": {name: "US Dollar"}} with rates {"usd": 1}, the only row is "US Dollar" at rate 1 |
| CurrencyRows.ScenarioMissingRate | components/currency-table.tsx:56 | for metadata {"jpy": {name: "Yen"}} with an empty rate map, there is exactly one row and its rate is "N/A" |
| CurrencyRows.ZeroRateIsNotAvailable | components/currency-table.tsx:56 | a present rate of 0 is shown as "N/A" |
| CurrencyTable.RateTable.constructor | components/currency-table.tsx:32-34 | the card starts with no rows, base currency "USD" and loading set |
| CurrencyTable.RateTable.SelectBaseCurrency | components/currency-table.tsx:95 | selecting a base currency changes only the base currency |
| CurrencyTable.RateTable.StartLoad | components/currency-table.tsx:39 | a load first sets loading and keeps the previous rows |
| CurrencyTable.RateTable.FinishLoad | components/currency-table.tsx:40-66 | after the fetches settle loading is cleared; on success rowData is replaced by the built rows, on failure it is unchanged; every displayed row stays well formed |
| CurrencyTable.RateTable.Load | components/currency-table.tsx:37-67 | a whole load ends with loading cleared; rowData is the rows built from the fetched data for the selected base currency, or the previous rows if either fetch threw; the base currency is unchanged |

## Left out

- `validateImage` (a `no-cors` fetch): only its boolean outcome is modelled, as the predicate `valid`. The model applies `valid` once per kept code, and the same URL always gets the same answer. The source fetches once per kept code, so two codes sharing a prefix (such as "USD" and "USN") fetch the same URL twice and could get different answers; in the model they always get the same flag.
- `fetchAllCurrencies` and `fetchExchangeRates`: the API client is not part of this model. Their results, or their failure, are inputs.
- `console.error` logging of a failed load is not modelled.
- The concurrency of `Promise.all` over the flag checks is left out. A load is one sequential step.
- The `useEffect` re-run on a base-currency change is left out. `SelectBaseCurrency` and `Load` are separate calls.
- The stale-response race between overlapping loads is left out, since one load is modelled as a single step.
- JavaScript number semantics for rates (floats, NaN) are left out. A rate is an opaque `R`, and only its truthiness is used.
- `toLowerCase` is modelled on ASCII letters only. Strings are sequences of characters, not UTF-16 code units.
- `Object.keys` ordering is left out. The JavaScript rule lists integer-like keys first, then insertion order. The model takes the key order as given.
- Properties inherited from `Object.prototype`, such as `rates["constructor"]`, are not modelled. A rate lookup sees only the rate object's own keys.
- A `name` that is present but not a string is not modelled.
- Rendering is left out: the ag-grid columns, pagination, sorting, the select and the card markup.
- components/AdComponent.tsx is left out. It only injects and removes a script tag and pushes onto a global.
