/**
 * The monetary formatters of FormattingUtils, the precision choice of
 * formatMarketPrice and the tier choice of formatBytes: which format each
 * one hands to MonetaryFormat.format, what it returns when the amount is
 * null or the formatter throws, and when it appends the currency code.
 */
module FormattingUtils {
  import opened Wrappers
  import opened Text
  import opened Monetary

  // ---------------------------------------------------------------------
  // Coins
  // ---------------------------------------------------------------------

  /**
   * formatCoinWithCode(Coin, MonetaryFormat): the code always follows the
   * number. A null coin, a null format (its postfixCode() throws inside the
   * try) and a throwing formatter all give "".
   */
  function FormatCoinWithCode(env: Env, coin: Option<int>, coinFormat: Option<MonetaryFormat>): (r: string)
    ensures coin.None? || coinFormat.None? ==> r == ""
    ensures r != "" ==>
      coin.Some? && coinFormat.Some? && env.format(PostfixCode(coinFormat.value), CoinAmount(coin.value)) == Some(r)
  {
    match coin
    case None => ""
    case Some(satoshis) =>
      match coinFormat
      case None => ""
      case Some(f) => env.format(PostfixCode(f), CoinAmount(satoshis)).GetOr("")
  }

  /** formatCoinWithCode(long, MonetaryFormat): Coin.valueOf never yields null. */
  function FormatCoinWithCodeLong(env: Env, value: int, coinFormat: Option<MonetaryFormat>): string
  {
    FormatCoinWithCode(env, Some(value), coinFormat)
  }

  /**
   * The format formatCoin uses: the code is dropped, and a decimalPlaces in
   * [0, 4] fixes that many decimals with that many optional single decimals.
   */
  function CoinFormatFor(coinFormat: MonetaryFormat, decimalPlaces: int): (r: MonetaryFormat)
    ensures !r.showCode
    ensures r.shift == coinFormat.shift && r.codePrefixed == coinFormat.codePrefixed
    ensures 0 <= decimalPlaces <= 4 ==> r.minDecimals == decimalPlaces && |r.decimalGroups| == decimalPlaces
    ensures 0 <= decimalPlaces <= 4 ==> forall i :: 0 <= i < |r.decimalGroups| ==> r.decimalGroups[i] == 1
    ensures !(0 <= decimalPlaces <= 4) ==> r.minDecimals == coinFormat.minDecimals && r.decimalGroups == coinFormat.decimalGroups
  {
    if decimalPlaces < 0 || decimalPlaces > 4 then NoCode(coinFormat)
    else RepeatOptionalDecimals(MinDecimals(NoCode(coinFormat), decimalPlaces), 1, decimalPlaces)
  }

  /** fillUpPlacesWithEmptyStrings: the padding loop is commented out, so the text comes back as it is. */
  function FillUpPlacesWithEmptyStrings(formattedNumber: string, maxNumberOfDigits: int): string
  {
    formattedNumber
  }

  /**
   * formatCoin(Coin, decimalPlaces, decimalAligned, maxNumberOfDigits,
   * MonetaryFormat). A null coin, a null format and a throwing formatter all
   * leave the result "".
   */
  function FormatCoin(env: Env, coin: Option<int>, decimalPlaces: int, decimalAligned: bool,
                      maxNumberOfDigits: int, coinFormat: Option<MonetaryFormat>): (r: string)
    ensures coin.None? || coinFormat.None? ==> r == ""
    ensures r != "" ==>
      coin.Some? && coinFormat.Some? && env.format(CoinFormatFor(coinFormat.value, decimalPlaces), CoinAmount(coin.value)) == Some(r)
  {
    var formattedCoin :=
      match coin
      case None => ""
      case Some(satoshis) =>
        match coinFormat
        case None => ""
        case Some(f) => env.format(CoinFormatFor(f, decimalPlaces), CoinAmount(satoshis)).GetOr("");
    if decimalAligned then FillUpPlacesWithEmptyStrings(formattedCoin, maxNumberOfDigits) else formattedCoin
  }

  /** formatCoin(long, MonetaryFormat): no decimal override, no alignment. */
  function FormatCoinLong(env: Env, value: int, coinFormat: Option<MonetaryFormat>): string
  {
    FormatCoin(env, Some(value), -1, false, 0, coinFormat)
  }

  // ---------------------------------------------------------------------
  // Money
  // ---------------------------------------------------------------------

  /**
   * The common tail of the money formatters: the formatted body, followed by
   * " <code>" when asked for; "n/a <code>" when the formatter threw.
   */
  function MoneyText(env: Env, formatted: Option<string>, currencyCode: string, appendCurrencyCode: bool): (r: string)
    ensures formatted.None? ==> r == env.na + " " + currencyCode
    ensures formatted.Some? ==>
      IsPrefix(formatted.value, r) && r[|formatted.value|..] == (if appendCurrencyCode then " " + currencyCode else "")
  {
    match formatted
    case None => env.na + " " + currencyCode
    case Some(res) => if appendCurrencyCode then res + " " + currencyCode else res
  }

  /**
   * formatTraditionalMoney. A null format makes `format.noCode()` throw
   * inside the try block, so it takes the same path as a throwing formatter.
   */
  function FormatTraditionalMoney(env: Env, traditionalMoney: Option<Money>, format: Option<MonetaryFormat>,
                                  appendCurrencyCode: bool): (r: string)
    ensures traditionalMoney.None? ==> r == env.na
    ensures traditionalMoney.Some? && format.None? ==> r == env.na + " " + traditionalMoney.value.currencyCode
    ensures traditionalMoney.Some? && format.Some? ==>
      r == MoneyText(env, env.format(NoCode(format.value), TraditionalAmount(traditionalMoney.value)),
                     traditionalMoney.value.currencyCode, appendCurrencyCode)
    ensures traditionalMoney.Some? && appendCurrencyCode ==> EndsWith(r, " " + traditionalMoney.value.currencyCode)
  {
    match traditionalMoney
    case None => env.na
    case Some(money) =>
      var formatted := match format
        case None => None
        case Some(f) => env.format(NoCode(f), TraditionalAmount(money));
      MoneyText(env, formatted, money.currencyCode, appendCurrencyCode)
  }

  /** formatCrypto: always the crypto profile, without code. */
  function FormatCrypto(env: Env, crypto: Option<Money>, appendCurrencyCode: bool): (r: string)
    ensures crypto.None? ==> r == env.na
    ensures crypto.Some? && appendCurrencyCode ==> EndsWith(r, " " + crypto.value.currencyCode)
  {
    match crypto
    case None => env.na
    case Some(money) =>
      MoneyText(env, env.format(NoCode(CryptoFormat(env)), CryptoAmount(money)), money.currencyCode, appendCurrencyCode)
  }

  /** The format formatCryptoVolume uses: two fixed decimals for "BSQ", the crypto profile otherwise. */
  function CryptoVolumeFormat(env: Env, currencyCode: string): (r: MonetaryFormat)
    ensures !r.showCode && r.shift == 0 && r.decimalGroups == []
    ensures r.minDecimals == if currencyCode == "BSQ" then 2 else env.cryptoSmallestUnitExponent
  {
    if currencyCode == "BSQ" then RepeatOptionalDecimals(MinDecimals(NoCode(CryptoFormat(env)), 2), 0, 0)
    else NoCode(CryptoFormat(env))
  }

  /** formatCryptoVolume. */
  function FormatCryptoVolume(env: Env, crypto: Option<Money>, appendCurrencyCode: bool): (r: string)
    ensures crypto.None? ==> r == env.na
    ensures crypto.Some? && appendCurrencyCode ==> EndsWith(r, " " + crypto.value.currencyCode)
  {
    match crypto
    case None => env.na
    case Some(money) =>
      MoneyText(env, env.format(CryptoVolumeFormat(env, money.currencyCode), CryptoAmount(money)),
                money.currencyCode, appendCurrencyCode)
  }

  // ---------------------------------------------------------------------
  // Prices
  // ---------------------------------------------------------------------

  /** formatPrice(Price, MonetaryFormat, boolean): traditional prices use the format given, crypto prices their own. */
  function FormatPrice(env: Env, price: Option<Price>, priceFormat: Option<MonetaryFormat>, appendCurrencyCode: bool): (r: string)
    ensures price.None? ==> r == env.na
    ensures price.Some? && appendCurrencyCode ==> EndsWith(r, " " + price.value.CurrencyCode())
  {
    match price
    case None => env.na
    case Some(TraditionalPrice(money)) => FormatTraditionalMoney(env, Some(money), priceFormat, appendCurrencyCode)
    case Some(CryptoPrice(money)) => FormatCrypto(env, Some(money), appendCurrencyCode)
  }

  /** getPriceMonetaryFormat: eight decimals for precise currencies, four otherwise, none optional. */
  function GetPriceMonetaryFormat(env: Env, currencyCode: string): (r: MonetaryFormat)
    ensures r.minDecimals == 8 <==> env.isPricePrecise(currencyCode)
    ensures r.minDecimals == 4 <==> !env.isPricePrecise(currencyCode)
    ensures r.shift == 0 && r.decimalGroups == []
  {
    if env.isPricePrecise(currencyCode) then PriceFormat8Decimals() else PriceFormat4Decimals()
  }

  /** formatPrice(Price, boolean): the price is dereferenced, so it must not be null. */
  function FormatPriceWithCode(env: Env, price: Price, appendCurrencyCode: bool): string
  {
    FormatPrice(env, Some(price), Some(GetPriceMonetaryFormat(env, price.CurrencyCode())), appendCurrencyCode)
  }

  /** formatPrice(Price): null-safe, without currency code. */
  function FormatPriceDefault(env: Env, price: Option<Price>): string
  {
    var priceFormat := match price
      case None => None
      case Some(p) => Some(GetPriceMonetaryFormat(env, p.CurrencyCode()));
    FormatPrice(env, price, priceFormat, false)
  }

  /** The precision formatMarketPrice(double, String) hands on: 2 for traditional currencies, 8 otherwise. */
  function MarketPricePrecision(env: Env, currencyCode: string): (r: nat)
    ensures r == 2 <==> env.isTraditionalCurrency(currencyCode)
    ensures r == 8 <==> !env.isTraditionalCurrency(currencyCode)
  {
    if env.isTraditionalCurrency(currencyCode) then 2 else 8
  }

  /**
   * formatMarketPrice(double, String). The rounding and DecimalFormat
   * rendering of formatMarketPrice(double, int) is the parameter `formatRounded`.
   */
  function FormatMarketPrice<D>(env: Env, formatRounded: (D, nat) -> string, price: D, currencyCode: string): string
  {
    formatRounded(price, MarketPricePrecision(env, currencyCode))
  }

  // ---------------------------------------------------------------------
  // Byte counts
  // ---------------------------------------------------------------------

  const KiB: nat := 1024
  const MiB: nat := 1024 * 1024

  /** Whether `suffix` ends `s` (String.endsWith). */
  predicate EndsWith(s: string, suffix: string)
  {
    |suffix| <= |s| && s[|s| - |suffix|..] == suffix
  }

  /**
   * formatBytes. `numeral(bytes, divisor)` is DecimalFormat("#.##") applied
   * to the double quotient, which is not part of this model.
   */
  function FormatBytes(numeral: (int, nat) -> string, bytes: int): string
  {
    if bytes < KiB then IntToString(bytes) + " bytes"
    else if bytes < MiB then numeral(bytes, KiB) + " KB"
    else numeral(bytes, MiB) + " MB"
  }

  // ---------------------------------------------------------------------
  // Properties
  // ---------------------------------------------------------------------

  /**
   * With a coin and a format, the coin formatters return exactly what the
   * formatter makes of the coin in their own format: the postfix-code format
   * for formatCoinWithCode (both overloads), CoinFormatFor for formatCoin.
   */
  lemma CoinProfiles(env: Env, value: int, coinFormat: MonetaryFormat, decimalPlaces: int, decimalAligned: bool,
                     maxNumberOfDigits: int)
    ensures var t := env.format(PostfixCode(coinFormat), CoinAmount(value));
      t.Some? ==> FormatCoinWithCode(env, Some(value), Some(coinFormat)) == t.value
                  && FormatCoinWithCodeLong(env, value, Some(coinFormat)) == t.value
    ensures var t := env.format(CoinFormatFor(coinFormat, decimalPlaces), CoinAmount(value));
      t.Some? ==> FormatCoin(env, Some(value), decimalPlaces, decimalAligned, maxNumberOfDigits, Some(coinFormat)) == t.value
  {
  }

  /**
   * Without the code flag, the money and price formatters return exactly
   * what the formatter makes of the amount in their own format: the caller's
   * format without code for traditional money and traditional prices, the
   * crypto profile for crypto money and crypto prices, CryptoVolumeFormat
   * for crypto volumes.
   */
  lemma MoneyProfiles(env: Env, money: Money, format: MonetaryFormat, priceFormat: Option<MonetaryFormat>)
    ensures var t := env.format(NoCode(format), TraditionalAmount(money));
      t.Some? ==> FormatTraditionalMoney(env, Some(money), Some(format), false) == t.value
                  && FormatPrice(env, Some(TraditionalPrice(money)), Some(format), false) == t.value
    ensures var c := env.format(NoCode(CryptoFormat(env)), CryptoAmount(money));
      c.Some? ==> FormatCrypto(env, Some(money), false) == c.value
                  && FormatPrice(env, Some(CryptoPrice(money)), priceFormat, false) == c.value
    ensures var v := env.format(CryptoVolumeFormat(env, money.currencyCode), CryptoAmount(money));
      v.Some? ==> FormatCryptoVolume(env, Some(money), false) == v.value
  {
  }

  /** Coin formatters fall back to "", money and price formatters to n/a, on a null amount or a null format. */
  lemma FallbacksDiffer(env: Env, coin: Option<int>, coinFormat: Option<MonetaryFormat>, decimalPlaces: int,
                        decimalAligned: bool, maxNumberOfDigits: int, money: Money,
                        format: Option<MonetaryFormat>, appendCurrencyCode: bool)
    ensures FormatCoinWithCode(env, None, coinFormat) == ""
    ensures FormatCoin(env, None, decimalPlaces, decimalAligned, maxNumberOfDigits, coinFormat) == ""
    ensures FormatCoinWithCode(env, coin, None) == ""
    ensures FormatCoin(env, coin, decimalPlaces, decimalAligned, maxNumberOfDigits, None) == ""
    ensures FormatTraditionalMoney(env, None, format, appendCurrencyCode) == env.na
    ensures FormatTraditionalMoney(env, Some(money), None, appendCurrencyCode) == env.na + " " + money.currencyCode
    ensures FormatCrypto(env, None, appendCurrencyCode) == env.na
    ensures FormatCryptoVolume(env, None, appendCurrencyCode) == env.na
    ensures FormatPrice(env, None, format, appendCurrencyCode) == env.na
    ensures FormatPriceDefault(env, None) == env.na
  {
  }

  /**
   * A formatter that throws on this very call yields "" for coins and
   * "n/a <code>" for money, with or without the code flag.
   */
  lemma ThrowingFormatter(env: Env, value: int, money: Money, coinFormat: MonetaryFormat, format: MonetaryFormat,
                          decimalPlaces: int, decimalAligned: bool, maxNumberOfDigits: int, appendCurrencyCode: bool)
    ensures env.format(PostfixCode(coinFormat), CoinAmount(value)).None? ==>
      FormatCoinWithCode(env, Some(value), Some(coinFormat)) == ""
    ensures env.format(CoinFormatFor(coinFormat, decimalPlaces), CoinAmount(value)).None? ==>
      FormatCoin(env, Some(value), decimalPlaces, decimalAligned, maxNumberOfDigits, Some(coinFormat)) == ""
    ensures env.format(NoCode(format), TraditionalAmount(money)).None? ==>
      FormatTraditionalMoney(env, Some(money), Some(format), appendCurrencyCode) == env.na + " " + money.currencyCode
    ensures env.format(NoCode(CryptoFormat(env)), CryptoAmount(money)).None? ==>
      FormatCrypto(env, Some(money), appendCurrencyCode) == env.na + " " + money.currencyCode
    ensures env.format(CryptoVolumeFormat(env, money.currencyCode), CryptoAmount(money)).None? ==>
      FormatCryptoVolume(env, Some(money), appendCurrencyCode) == env.na + " " + money.currencyCode
  {
  }

  /** A number shorter than the width comes back without the leading spaces the disabled loop would add. */
  lemma ShortNumbersAreNotPadded(formattedNumber: string, maxNumberOfDigits: int)
    requires |formattedNumber| < maxNumberOfDigits
    ensures FillUpPlacesWithEmptyStrings(formattedNumber, maxNumberOfDigits) == formattedNumber
  {
  }

  /** decimalAligned never changes formatCoin's result. */
  lemma FormatCoinIgnoresAlignment(env: Env, coin: Option<int>, decimalPlaces: int, maxNumberOfDigits: int,
                                   otherMaxNumberOfDigits: int, coinFormat: Option<MonetaryFormat>)
    ensures FormatCoin(env, coin, decimalPlaces, true, maxNumberOfDigits, coinFormat)
         == FormatCoin(env, coin, decimalPlaces, false, otherMaxNumberOfDigits, coinFormat)
  {
  }

  /** A decimalPlaces outside [0, 4] is ignored: it acts as the -1 of the long overload. */
  lemma FormatCoinOutOfRangeDecimals(env: Env, value: int, decimalPlaces: int, coinFormat: MonetaryFormat)
    requires decimalPlaces < 0 || decimalPlaces > 4
    ensures FormatCoin(env, Some(value), decimalPlaces, false, 0, Some(coinFormat)) == FormatCoinLong(env, value, Some(coinFormat))
    ensures CoinFormatFor(coinFormat, decimalPlaces) == NoCode(coinFormat)
  {
  }

  /** formatCoinWithCode puts the code after the number whatever the format's own placement. */
  lemma FormatCoinWithCodeIgnoresPlacement(env: Env, coin: Option<int>, coinFormat: MonetaryFormat)
    ensures FormatCoinWithCode(env, coin, Some(coinFormat)) == FormatCoinWithCode(env, coin, Some(coinFormat.(codePrefixed := true)))
    ensures FormatCoinWithCode(env, coin, Some(coinFormat)) == FormatCoinWithCode(env, coin, Some(coinFormat.(codePrefixed := false)))
  {
  }

  /**
   * The code flag of the money formatters: when the formatter succeeds the
   * flag appends exactly " <code>"; when it throws the flag changes nothing.
   */
  lemma AppendCodeSuffix(env: Env, money: Money, format: MonetaryFormat)
    ensures var code := money.currencyCode;
      var t := env.format(NoCode(format), TraditionalAmount(money));
      FormatTraditionalMoney(env, Some(money), Some(format), true)
      == FormatTraditionalMoney(env, Some(money), Some(format), false) + (if t.Some? then " " + code else "")
    ensures var code := money.currencyCode;
      var c := env.format(NoCode(CryptoFormat(env)), CryptoAmount(money));
      FormatCrypto(env, Some(money), true) == FormatCrypto(env, Some(money), false) + (if c.Some? then " " + code else "")
    ensures var code := money.currencyCode;
      var v := env.format(CryptoVolumeFormat(env, code), CryptoAmount(money));
      FormatCryptoVolume(env, Some(money), true) == FormatCryptoVolume(env, Some(money), false) + (if v.Some? then " " + code else "")
  {
  }

  /** Only the code "BSQ" makes formatCryptoVolume differ from formatCrypto. */
  lemma CryptoVolumeIsCryptoExceptBsq(env: Env, crypto: Option<Money>, appendCurrencyCode: bool)
    requires crypto.Some? ==> crypto.value.currencyCode != "BSQ"
    ensures FormatCryptoVolume(env, crypto, appendCurrencyCode) == FormatCrypto(env, crypto, appendCurrencyCode)
  {
  }

  /**
   * formatPrice(Price, MonetaryFormat, boolean) hands a traditional price to
   * formatTraditionalMoney with the caller's format (null included) and a
   * crypto price to formatCrypto, passing the code flag through, so every
   * outcome those formatters promise (success with or without the code, a
   * throw, a null format) is the price's outcome too.
   */
  lemma FormatPriceDispatch(env: Env, money: Money, priceFormat: Option<MonetaryFormat>, appendCurrencyCode: bool)
    ensures FormatPrice(env, Some(TraditionalPrice(money)), priceFormat, appendCurrencyCode)
         == FormatTraditionalMoney(env, Some(money), priceFormat, appendCurrencyCode)
    ensures FormatPrice(env, Some(CryptoPrice(money)), priceFormat, appendCurrencyCode)
         == FormatCrypto(env, Some(money), appendCurrencyCode)
    ensures priceFormat.None? ==>
      FormatPrice(env, Some(TraditionalPrice(money)), priceFormat, appendCurrencyCode) == env.na + " " + money.currencyCode
    ensures priceFormat.Some? && env.format(NoCode(priceFormat.value), TraditionalAmount(money)).None? ==>
      FormatPrice(env, Some(TraditionalPrice(money)), priceFormat, appendCurrencyCode) == env.na + " " + money.currencyCode
    ensures priceFormat.Some? && env.format(NoCode(priceFormat.value), TraditionalAmount(money)).Some? ==>
      FormatPrice(env, Some(TraditionalPrice(money)), priceFormat, appendCurrencyCode)
      == env.format(NoCode(priceFormat.value), TraditionalAmount(money)).value
         + (if appendCurrencyCode then " " + money.currencyCode else "")
  {
  }

  /** A crypto price is rendered with the crypto profile; the price format passed in plays no part. */
  lemma CryptoPriceIgnoresFormat(env: Env, money: Money, f1: Option<MonetaryFormat>, f2: Option<MonetaryFormat>,
                                 appendCurrencyCode: bool)
    ensures FormatPrice(env, Some(CryptoPrice(money)), f1, appendCurrencyCode)
         == FormatPrice(env, Some(CryptoPrice(money)), f2, appendCurrencyCode)
  {
  }

  /** The overloads of formatPrice agree, and a traditional price takes the 8- or 4-decimal profile by precision. */
  lemma FormatPriceOverloads(env: Env, price: Price, appendCurrencyCode: bool)
    ensures FormatPriceDefault(env, Some(price)) == FormatPriceWithCode(env, price, false)
    ensures price.TraditionalPrice? ==>
      FormatPriceWithCode(env, price, appendCurrencyCode)
      == FormatTraditionalMoney(env, Some(price.money),
                                Some(if env.isPricePrecise(price.CurrencyCode()) then PriceFormat8Decimals() else PriceFormat4Decimals()),
                                appendCurrencyCode)
    ensures price.CryptoPrice? ==>
      FormatPriceWithCode(env, price, appendCurrencyCode) == FormatCrypto(env, Some(price.money), appendCurrencyCode)
  {
  }

  /** formatMarketPrice(double, String) rounds to 2 places for traditional currencies and to 8 otherwise. */
  lemma MarketPriceRounding<D>(env: Env, formatRounded: (D, nat) -> string, price: D, currencyCode: string)
    ensures env.isTraditionalCurrency(currencyCode) ==> FormatMarketPrice(env, formatRounded, price, currencyCode) == formatRounded(price, 2)
    ensures !env.isTraditionalCurrency(currencyCode) ==> FormatMarketPrice(env, formatRounded, price, currencyCode) == formatRounded(price, 8)
  {
  }

  /** The unit at the end of formatBytes names the tier of the count, whatever the numerals read. */
  lemma FormatBytesTier(numeral: (int, nat) -> string, bytes: int)
    ensures EndsWith(FormatBytes(numeral, bytes), " bytes") <==> bytes < KiB
    ensures EndsWith(FormatBytes(numeral, bytes), " KB") <==> KiB <= bytes < MiB
    ensures EndsWith(FormatBytes(numeral, bytes), " MB") <==> MiB <= bytes
    ensures KiB <= bytes < MiB ==> var r := FormatBytes(numeral, bytes); |r| >= 3 && r[..|r| - 3] == numeral(bytes, KiB)
    ensures MiB <= bytes ==> var r := FormatBytes(numeral, bytes); |r| >= 3 && r[..|r| - 3] == numeral(bytes, MiB)
  {
    var r := FormatBytes(numeral, bytes);
    var n := |r|;
    if bytes < KiB {
      assert r[n - 1] == 's';
    } else if bytes < MiB {
      assert r[n - 1] == 'B' && r[n - 2] == 'K';
    } else {
      assert r[n - 1] == 'B' && r[n - 2] == 'M';
    }
  }

  /** Below one KiB the count is written out exactly and reads back. */
  lemma FormatBytesSmallReadsBack(numeral: (int, nat) -> string, bytes: int)
    requires bytes < KiB
    ensures var r := FormatBytes(numeral, bytes);
      |r| > 6 && r[..|r| - 6] == IntToString(bytes) && ParseInt(r[..|r| - 6]) == bytes
  {
    var r := FormatBytes(numeral, bytes);
    assert r[..|r| - 6] == IntToString(bytes);
    IntToStringRoundTrip(bytes);
  }
}
