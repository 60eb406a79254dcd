# FormattingUtils: duration words, monetary formatting, byte tiers

This project models the display-formatting core of Haveno's
`core/src/main/java/haveno/core/util/FormattingUtils.java` in Dafny and
proves what the formatters promise.

- **`formatDurationAsWords`** (both overloads), in `duration_words.dfy`. The
  source builds a `DurationFormatUtils` pattern (a days field from one full
  day on, hours and minutes always, seconds when asked for), renders it with
  the plural resource words, and turns `1 <plural>` into `1 <singular>` with
  four `^1 P|\b1 P` regex passes. When zero values are hidden it then strips
  them with hard-coded English literals, and finally trims. Each step is
  modelled as written:
  - the pattern as tokens and the running-remainder field split;
  - the boundary regex as `Text.ReplaceAtBoundary`;
  - `String.replace` as `Text.ReplaceAll`;
  - the anchored `replacePattern` as `Text.StripPrefix`;
  - `trim` as `Text.Trim`.

  For hygienic resource words (English plurals when zero values are hidden),
  the whole pipeline is proved equal to `Phrase`, a direct builder. `Phrase`
  reads the clock (whole days, hour of day, minute of hour, second of
  minute), keeps the visible segments, and gives a count of exactly 1 its
  singular word. Worked examples are proved against the pipeline itself.
  One of them is the source's quirk that 30 000 ms with seconds and zero
  values hidden reads `"0 hours"`.
- **The monetary formatters**, in `formatting_utils.dfy`, with the
  `MonetaryFormat` configuration in `monetary.dfy`:
  - `formatCoinWithCode` and `formatCoin`, with `fillUpPlacesWithEmptyStrings`;
  - `formatTraditionalMoney`, `formatCrypto` and `formatCryptoVolume`;
  - the three `formatPrice` overloads and `getPriceMonetaryFormat`.

  The model states which format each one hands to `MonetaryFormat.format`,
  when `decimalPlaces` overrides it, and the fallbacks. A null coin, a null
  coin format or a throwing formatter gives `""` for coins. For money and prices a null input gives
  `shared.na`, and a throwing formatter gives `shared.na` followed by the
  code. The model also fixes when `" <code>"` is appended, the `"BSQ"` case,
  and the traditional/crypto dispatch.
- **The precision choice of `formatMarketPrice(double, String)`** and **the
  tier choice of `formatBytes`**.

Java `null` and a caught exception are `Option.None` (`wrappers.dfy`).
Several collaborators are fields of the `Monetary.Env` value:
`MonetaryFormat.format`, `CurrencyUtil.isPricePrecise` and
`isTraditionalCurrency`, `Res.get("shared.na")`, and
`CryptoMoney.SMALLEST_UNIT_EXPONENT`. The resource strings `time.second` …
`time.seconds` are the `ResourceWords` value. The double-based numerals are
function parameters.

## Model

| member | source | states |
|---|---|---|
| DurationWords.FormatDurationAsWords | core/src/main/java/haveno/core/util/FormattingUtils.java:233-271 | the pipeline returns "" for every durationMillis <= 0, whatever the flags |
| DurationWords.FormatDurationAsWordsDefault | core/src/main/java/haveno/core/util/FormattingUtils.java:229-231 | the one-argument overload returns "" for every durationMillis <= 0 |
| DurationWords.FormatDurationAsWordsDefaultIsPhrase | core/src/main/java/haveno/core/util/FormattingUtils.java:229-231 | for hygienic resource words the one-argument overload equals Phrase with seconds omitted and zero values shown, for every duration |
| DurationWords.DurationSegments | core/src/main/java/haveno/core/util/FormattingUtils.java:244-252 | the clock reading has a days segment iff durationMillis >= 86 400 000, hours and minutes always, and seconds iff showSeconds; hours are < 24, minutes and seconds < 60; the segments add up to the duration less under one unit of the last shown field |
| DurationWords.SplitReadsClock | core/src/main/java/haveno/core/util/FormattingUtils.java:244-254 | DurationFormatUtils' running-remainder split of the built pattern gives whole days (only from one day on), hour of day, minute of hour, and second of minute when shown |
| DurationWords.RenderedPattern | core/src/main/java/haveno/core/util/FormattingUtils.java:244-254 | the rendered pattern is the clock segments, each as "<count> <plural>", joined by ", " |
| DurationWords.SingularizeSegments | core/src/main/java/haveno/core/util/FormattingUtils.java:256-259 | Singularize: for hygienic words, the four boundary passes turn exactly the parts counting 1 into their singular word and change nothing else |
| DurationWords.CountOneIsSingular | core/src/main/java/haveno/core/util/FormattingUtils.java:256-259 | in the phrase's parts a count of exactly 1 takes the singular word and every other count (0, 11, 21, …) the plural; counts are unchanged |
| DurationWords.VisibleSegments | core/src/main/java/haveno/core/util/FormattingUtils.java:261-268 | with zero values shown all segments stay; hidden, the result is exactly the nonzero segments in order, or the first segment alone when every segment is zero |
| DurationWords.StripSegments | core/src/main/java/haveno/core/util/FormattingUtils.java:261-268 | StripZeroValues: with English plurals, the three interior `replace` passes and four anchored prefix passes remove exactly the segments VisibleSegments drops |
| DurationWords.Phrase | core/src/main/java/haveno/core/util/FormattingUtils.java:233-271 | the reference phrase is empty exactly when durationMillis <= 0 |
| DurationWords.FormatDurationAsWordsIsPhrase | core/src/main/java/haveno/core/util/FormattingUtils.java:233-271 | for hygienic resource words (English plurals when zero values are hidden) the source pipeline equals Phrase for every duration and both flags |
| DurationWords.EnglishIsHygienic | core/src/main/java/haveno/core/util/FormattingUtils.java:235-242 | the English bundle meets the hygiene and plural conditions of the main theorem |
| DurationWords.OneOfEach | core/src/main/java/haveno/core/util/FormattingUtils.java:256-259 | 90 061 000 ms with seconds and zero values shown reads "1 day, 1 hour, 1 minute, 1 second" |
| DurationWords.MinutesAndSeconds | core/src/main/java/haveno/core/util/FormattingUtils.java:256-268 | 681 000 ms with seconds shown and zeros hidden reads "11 minutes, 21 seconds": 11 and 21 stay plural, the leading zero hours go |
| DurationWords.OneHour | core/src/main/java/haveno/core/util/FormattingUtils.java:261-270 | 3 600 000 ms without seconds and zeros hidden reads "1 hour" |
| DurationWords.HalfMinuteReadsZeroHours | core/src/main/java/haveno/core/util/FormattingUtils.java:261-270 | 30 000 ms without seconds and zeros hidden reads "0 hours": once ", 0 minutes" is gone, "^0 hours, " no longer matches |
| DurationWords.OneMinuteDefault | core/src/main/java/haveno/core/util/FormattingUtils.java:229-231 | the default overload keeps zero values and omits seconds: 60 000 ms reads "0 hours, 1 minute" |
| Text.Trim | core/src/main/java/haveno/core/util/FormattingUtils.java:270 | trim returns a contiguous slice of the text, drops only characters up to U+0020 on either side of it, leaves none at either end, and leaves alone a text already so |
| Text.StripPrefix | core/src/main/java/haveno/core/util/FormattingUtils.java:265-268 | the anchored pattern removes the literal once, only at the start, and otherwise returns the text |
| Text.IntToStringRoundTrip | core/src/main/java/haveno/core/util/FormattingUtils.java:278 | the decimal rendering of a long reads back as the same number |
| Monetary.PriceFormat4Decimals | core/src/main/java/haveno/core/util/FormattingUtils.java:32 | priceFormat4Decimals has no shift, 4 fixed decimals and no optional decimals |
| Monetary.PriceFormat8Decimals | core/src/main/java/haveno/core/util/FormattingUtils.java:33 | priceFormat8Decimals has no shift, 8 fixed decimals and no optional decimals |
| Monetary.CryptoFormat | core/src/main/java/haveno/core/util/FormattingUtils.java:34 | cryptoFormat has no shift, SMALLEST_UNIT_EXPONENT fixed decimals and no optional decimals |
| FormattingUtils.FormatCoinWithCode | core/src/main/java/haveno/core/util/FormattingUtils.java:41-54 | a null coin or a null format gives ""; a non-empty result is always the formatter's output for the coin in the postfix-code format |
| FormattingUtils.CoinProfiles | core/src/main/java/haveno/core/util/FormattingUtils.java:37-84 | FormatCoinWithCodeLong, FormatCoinWithCode and FormatCoin: when the formatter succeeds, both formatCoinWithCode overloads return exactly its output in the postfix-code format and formatCoin exactly its output in the CoinFormatFor format |
| FormattingUtils.FormatCoinWithCodeIgnoresPlacement | core/src/main/java/haveno/core/util/FormattingUtils.java:44-46 | the code follows the number whatever the given format's own code placement |
| FormattingUtils.CoinFormatFor | core/src/main/java/haveno/core/util/FormattingUtils.java:69-73 | formatCoin always drops the code; decimalPlaces in [0,4] gives that many fixed decimals and that many optional single decimals, any other value keeps the format's decimals |
| FormattingUtils.ShortNumbersAreNotPadded | core/src/main/java/haveno/core/util/FormattingUtils.java:285-293 | FillUpPlacesWithEmptyStrings: a number shorter than maxNumberOfDigits comes back without the leading spaces the commented-out loop would add |
| FormattingUtils.FormatCoin | core/src/main/java/haveno/core/util/FormattingUtils.java:60-84 | a null coin or a null format gives ""; a non-empty result is always the formatter's output for the coin in the CoinFormatFor format |
| FormattingUtils.FormatCoinIgnoresAlignment | core/src/main/java/haveno/core/util/FormattingUtils.java:79-81 | decimalAligned and maxNumberOfDigits never change formatCoin's result |
| FormattingUtils.FormatCoinOutOfRangeDecimals | core/src/main/java/haveno/core/util/FormattingUtils.java:56-73 | FormatCoinLong: a decimalPlaces outside [0,4] acts as the -1 of the long overload: only the code is dropped |
| FormattingUtils.MoneyText | core/src/main/java/haveno/core/util/FormattingUtils.java:89-96 | a throwing formatter gives "n/a <code>" whatever the flag; a result starts with the formatted text and continues with exactly " <code>" when appendCurrencyCode is set, and with nothing otherwise |
| FormattingUtils.FormatTraditionalMoney | core/src/main/java/haveno/core/util/FormattingUtils.java:86-101 | null money gives n/a; a null format throws inside the try and gives "n/a <code>"; otherwise the no-code format through MoneyText; with the code flag the result always ends in " <code>" |
| FormattingUtils.FormatCrypto | core/src/main/java/haveno/core/util/FormattingUtils.java:103-118 | null gives n/a; with the code flag the result always ends in " <code>", whether the formatter succeeds or throws |
| FormattingUtils.CryptoVolumeFormat | core/src/main/java/haveno/core/util/FormattingUtils.java:125-128 | no code, no shift, no optional decimals; 2 fixed decimals iff the code is exactly "BSQ", else the crypto exponent |
| FormattingUtils.FormatCryptoVolume | core/src/main/java/haveno/core/util/FormattingUtils.java:120-140 | null gives n/a; with the code flag the result always ends in " <code>", whether the formatter succeeds or throws |
| FormattingUtils.CryptoVolumeIsCryptoExceptBsq | core/src/main/java/haveno/core/util/FormattingUtils.java:120-140 | for any code other than "BSQ", formatCryptoVolume and formatCrypto agree |
| FormattingUtils.FallbacksDiffer | core/src/main/java/haveno/core/util/FormattingUtils.java:41-152 | a null amount gives "" from the coin formatters and n/a from the money and price formatters; a null coin format gives "", a null traditional format "n/a <code>" |
| FormattingUtils.ThrowingFormatter | core/src/main/java/haveno/core/util/FormattingUtils.java:41-140 | when MonetaryFormat.format throws on that very call, the coin formatters give "" and the money formatters "n/a <code>", whatever the code flag |
| FormattingUtils.AppendCodeSuffix | core/src/main/java/haveno/core/util/FormattingUtils.java:86-140 | appendCurrencyCode adds exactly " <code>" after a successful format and nothing after a throw |
| FormattingUtils.FormatPrice | core/src/main/java/haveno/core/util/FormattingUtils.java:142-152 | null price gives n/a; with the code flag the result always ends in " <code>" |
| FormattingUtils.FormatPriceDispatch | core/src/main/java/haveno/core/util/FormattingUtils.java:142-152 | FormatPrice: a traditional price is exactly formatTraditionalMoney with the caller's format and flag, a crypto price exactly formatCrypto with the flag; so a null format or a throw gives "n/a <code>", and a success the formatted text followed by " <code>" exactly when the flag is set |
| FormattingUtils.MoneyProfiles | core/src/main/java/haveno/core/util/FormattingUtils.java:86-152 | when the formatter succeeds, without the code flag, traditional money and traditional prices return exactly its output in the caller's format without code, crypto money and crypto prices in the crypto profile, crypto volumes in CryptoVolumeFormat |
| FormattingUtils.CryptoPriceIgnoresFormat | core/src/main/java/haveno/core/util/FormattingUtils.java:142-152 | a crypto price renders the same whatever price format is passed |
| FormattingUtils.GetPriceMonetaryFormat | core/src/main/java/haveno/core/util/FormattingUtils.java:295-297 | 8 fixed decimals iff isPricePrecise, 4 iff not; no shift and no optional decimals |
| FormattingUtils.FormatPriceOverloads | core/src/main/java/haveno/core/util/FormattingUtils.java:154-160 | FormatPriceDefault and FormatPriceWithCode: the one- and two-argument overloads agree; a traditional price uses the 8- or 4-decimal profile by precision, a crypto price formatCrypto |
| FormattingUtils.MarketPricePrecision | core/src/main/java/haveno/core/util/FormattingUtils.java:162-167 | precision 2 iff the currency is traditional, 8 iff not |
| FormattingUtils.MarketPriceRounding | core/src/main/java/haveno/core/util/FormattingUtils.java:162-171 | FormatMarketPrice: formatMarketPrice(double, String) renders with precision 2 for traditional currencies and 8 otherwise |
| FormattingUtils.FormatBytesTier | core/src/main/java/haveno/core/util/FormattingUtils.java:273-283 | FormatBytes: the result ends in " bytes", " KB" or " MB" exactly when the count is in that tier; before " KB" stands the numeral of the count over 1024, before " MB" over 1 048 576; there is no GB tier |
| FormattingUtils.FormatBytesSmallReadsBack | core/src/main/java/haveno/core/util/FormattingUtils.java:277-278 | FormatBytes: below 1024 the count before " bytes" reads back as the exact byte count |

## Left out

- Percent rendering (`formatToPercent*`, `formatPercentagePrice`) and `formatRoundedDoubleWithPrecision` use double arithmetic, `MathUtils.roundDouble` and `DecimalFormat`. The rounding step of `formatMarketPrice` is therefore the parameter `formatRounded`; only the precision choice is modelled.
- The KB and MB numerals of `formatBytes` use double division and a `"#.##"` `DecimalFormat` with a locale-dependent separator. They are the opaque parameter `numeral`.
- Date and time rendering (`formatDateTime`, `getDateFromBlockHeight`) depends on `DateFormat`, `Locale`, `TimeZone` and the wall clock.
- The internals of bitcoinj `MonetaryFormat.format` and `Coin` are not part of this model: `format` is a function of the format and the amount, with `None` for a throw. `MonetaryFormat` keeps only the settings the formatters change (shift, fixed decimals, optional decimal groups, code shown, code placement).
- `Res.get`, `CurrencyUtil.isPricePrecise`, `CurrencyUtil.isTraditionalCurrency` and `CryptoMoney.SMALLEST_UNIT_EXPONENT` are not part of this model. They are the fields of `Env` and the `ResourceWords` value.
- `log.warn` in the catch blocks: a caught exception is only the `None` branch.
- The shared static `decimalFormat` that `formatRoundedDoubleWithPrecision` mutates is a thread-safety matter in left-out code.
- `String.toLowerCase` on `time.hour` and `time.day` is modelled for ASCII letters only (`Text.ToLowerAscii`), without locale rules.
- `DurationFormatUtils` pattern lexing is not modelled: the pattern is built directly as field and literal tokens. This is faithful only while the resource words contain no quote characters.
- Java `long` is modelled as an unbounded `int`. No modelled arithmetic can overflow a long: the duration split only divides, and byte tiers only compare.
- FormatDurationAsWordsIsPhrase: proved only for hygienic resource words. Hygienic words contain no digit 1 and no comma, end in a visible character, and no plural is a prefix of any singular or of another unit's plural. The regex passes treat the words as literals, which holds while the words carry no regex metacharacters and the singulars no `$` or `\`. When zero values are hidden, the theorem also needs the English plurals, because the stripping literals are English. Other bundles run the same modelled pipeline, but only its definition describes them.
- DurationWords.FormatDurationAsWordsDefault: its own contract states only the empty result for non-positive durations; the rest is FormatDurationAsWordsDefaultIsPhrase, for hygienic words.
- DurationWords.FormatDurationAsWords: its contract states only the empty result for non-positive durations; everything else it promises is stated through FormatDurationAsWordsIsPhrase.
