/**
 * The amounts FormattingUtils renders and the bitcoinj MonetaryFormat
 * configuration it builds. MonetaryFormat.format itself, the currency
 * predicates of CurrencyUtil and the resource lookup Res.get are not part of
 * this model: they reach the formatters as the fields of an `Env`.
 */
module Monetary {
  import opened Wrappers

  /** A currency amount: an integer count of the smallest unit, with its currency code. */
  datatype Money = Money(value: int, currencyCode: string)

  /** The bitcoinj Monetary values the formatters hand to MonetaryFormat.format. */
  datatype Amount =
    | CoinAmount(satoshis: int)
    | TraditionalAmount(money: Money)
    | CryptoAmount(money: Money)

  /** A Price wraps either traditional or crypto money; its currency code is the money's. */
  datatype Price = TraditionalPrice(money: Money) | CryptoPrice(money: Money)
  {
    function CurrencyCode(): string
    {
      money.currencyCode
    }
  }

  /**
   * The part of a MonetaryFormat the formatters change: the decimal shift,
   * the minimum number of decimals, the groups of optional decimals, whether
   * a currency code is printed and whether it goes before the number.
   */
  datatype MonetaryFormat = MonetaryFormat(
    shift: int,
    minDecimals: nat,
    decimalGroups: seq<nat>,
    showCode: bool,
    codePrefixed: bool)

  /** `new MonetaryFormat()`: no shift, two decimals, no optional decimals, code shown in front. */
  const DefaultFormat := MonetaryFormat(0, 2, [], true, true)

  function Shift(f: MonetaryFormat, shift: int): MonetaryFormat
  {
    f.(shift := shift)
  }

  function MinDecimals(f: MonetaryFormat, minDecimals: nat): MonetaryFormat
  {
    f.(minDecimals := minDecimals)
  }

  /** `repeatOptionalDecimals(decimals, repetitions)`: that many optional groups of that many decimals. */
  function RepeatOptionalDecimals(f: MonetaryFormat, decimals: nat, repetitions: nat): MonetaryFormat
  {
    f.(decimalGroups := seq(repetitions, _ => decimals))
  }

  function NoCode(f: MonetaryFormat): MonetaryFormat
  {
    f.(showCode := false)
  }

  function PostfixCode(f: MonetaryFormat): MonetaryFormat
  {
    f.(codePrefixed := false)
  }

  /**
   * What FormattingUtils takes from outside: MonetaryFormat.format (None
   * when it throws), CurrencyUtil.isPricePrecise and isTraditionalCurrency,
   * Res.get("shared.na") and CryptoMoney.SMALLEST_UNIT_EXPONENT.
   */
  datatype Env = Env(
    format: (MonetaryFormat, Amount) -> Option<string>,
    isPricePrecise: string -> bool,
    isTraditionalCurrency: string -> bool,
    na: string,
    cryptoSmallestUnitExponent: nat)

  /** priceFormat4Decimals. */
  function PriceFormat4Decimals(): (f: MonetaryFormat)
    ensures f.shift == 0 && f.minDecimals == 4 && f.decimalGroups == []
  {
    RepeatOptionalDecimals(MinDecimals(Shift(DefaultFormat, 0), 4), 0, 0)
  }

  /** priceFormat8Decimals. */
  function PriceFormat8Decimals(): (f: MonetaryFormat)
    ensures f.shift == 0 && f.minDecimals == 8 && f.decimalGroups == []
  {
    RepeatOptionalDecimals(MinDecimals(Shift(DefaultFormat, 0), 8), 0, 0)
  }

  /** cryptoFormat: as many fixed decimals as the crypto smallest unit has, none optional. */
  function CryptoFormat(env: Env): (f: MonetaryFormat)
    ensures f.shift == 0 && f.minDecimals == env.cryptoSmallestUnitExponent && f.decimalGroups == []
  {
    RepeatOptionalDecimals(MinDecimals(Shift(DefaultFormat, 0), env.cryptoSmallestUnitExponent), 0, 0)
  }
}
