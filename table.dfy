/** The state of the currency rates table card and the `loadData` effect that
    refreshes it. */
module CurrencyTable {
  import opened CurrencyRows

  /** The base currency selected when the card is first shown. */
  const DefaultBaseCurrency: string := "USD"

  /** The card's three pieces of React state. While `loading` is set the card
      shows a placeholder; otherwise it shows `rowData` in the grid. */
  class RateTable<R> {
    var rowData: seq<Row<R>>
    var baseCurrency: string
    var loading: bool

    /** Every row on display is well formed: a flagcdn or fallback flag, and the
        same non-empty name in the country and currency columns. */
    ghost predicate Valid()
      reads this
    {
      forall row :: row in rowData ==> WellFormedRow(row)
    }

    /** The initial state: no rows, base currency USD, loading. */
    constructor ()
      ensures Valid()
      ensures rowData == [] && baseCurrency == DefaultBaseCurrency && loading
    {
      rowData := [];
      baseCurrency := DefaultBaseCurrency;
      loading := true;
    }

    /** The select's `onValueChange`: only the base currency changes; the
        effect then runs `Load` again. */
    method SelectBaseCurrency(code: string)
      requires Valid()
      modifies this
      ensures Valid()
      ensures baseCurrency == code
      ensures rowData == old(rowData) && loading == old(loading)
    {
      baseCurrency := code;
    }

    /** The first step of `loadData`, before any fetch is awaited: the
        placeholder is shown and the previous rows are kept. */
    method StartLoad()
      requires Valid()
      modifies this
      ensures Valid()
      ensures loading
      ensures rowData == old(rowData) && baseCurrency == old(baseCurrency)
    {
      loading := true;
    }

    /** The rest of `loadData`, once the fetches have settled. `currencies` and
        `rates` are what `fetchAllCurrencies` and `fetchExchangeRates`
        resolved to, `None` when the call threw. On success the rows are
        replaced wholesale; on failure the error is only logged, so the rows
        stay as they were. Either way `finally` clears `loading`. */
    method FinishLoad(currencies: Option<seq<Entry>>, rates: Option<map<string, R>>,
                      valid: string -> bool, falsy: R -> bool)
      requires Valid()
      modifies this
      ensures Valid()
      ensures !loading
      ensures baseCurrency == old(baseCurrency)
      ensures currencies.Some? && rates.Some? ==> rowData == BuildRows(currencies.value, rates.value, valid, falsy)
      ensures currencies.None? || rates.None? ==> rowData == old(rowData)
    {
      if currencies.Some? && rates.Some? {
        var data := MapRows(currencies.value, rates.value, valid, falsy);
        BuildRowsWellFormed(currencies.value, rates.value, valid, falsy);
        rowData := Present(data);
      }
      loading := false;
    }

    /** One whole run of `loadData` for the current base currency. The rate
        fetch is only made once the currency fetch has succeeded, and is made
        for the selected base currency. */
    method Load(currencies: Option<seq<Entry>>, fetchRates: string -> Option<map<string, R>>,
                valid: string -> bool, falsy: R -> bool)
      requires Valid()
      modifies this
      ensures Valid()
      ensures !loading
      ensures baseCurrency == old(baseCurrency)
      ensures currencies.Some? && fetchRates(baseCurrency).Some? ==>
                rowData == BuildRows(currencies.value, fetchRates(baseCurrency).value, valid, falsy)
      ensures currencies.None? || fetchRates(baseCurrency).None? ==> rowData == old(rowData)
    {
      StartLoad();
      var rates := if currencies.Some? then fetchRates(baseCurrency) else None;
      FinishLoad(currencies, rates, valid, falsy);
    }
  }
}
