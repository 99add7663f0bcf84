# VanillaCount number speller — a Dafny model

VanillaCount spells a number given as a string ("1001.02") as words, either
as a plain number ("one thousand and one") or as an amount of a currency
("one thousand and one dollars and two cents"). This project models its
pipeline and proves properties of it:

- `php.dfy` (module `Php`): the PHP built-ins the code relies on — truthiness
  and `?:`, `preg_replace('/\D/', …)`, `str_pad`, `str_split`, `(int)` of a
  digit string, `array_reverse`, `implode`, `str_replace`, `strtolower`,
  `strtoupper`, `trim` — with their value lemmas (padding and digit values).
- `lands.dfy` (module `Lands`): the lands of a number as the ordered PHP
  array the code passes around. `Lands(dec, ints)` keeps the fraction keys
  `-|dec| .. -1` first and the integer keys `0 .. |ints|-1` after them; key 0
  is the units group. Spelled lands are a list of `Entry(key, text)` with
  strictly increasing keys. The "and"-versus-comma join both locales share is
  `JoinLands`.
- `count.dfy` (module `Count`): `normalizeNumber`, `getNumberLands` and
  `spell`, with a `Locale` tag that dispatches to the English or the
  Portuguese grammar.
- `english.dfy` (module `English`): the options record and its defaults,
  `simple`, `format` (a method proved against the function `FormatSpec`) and
  `formatType` (`Wrap`).
- `portuguese.dfy` (module `Portuguese`): the fixed word tables, `simple`
  and `format`.
- `currencies.dfy` (module `Currencies`): locale-tag splitting and
  normalisation, the `Currency` class with its table of naming rules, aliases
  and default locale, the ordered fallback search, and the `DollarCurrency`
  and `RealCurrency` constructors.

PHP `null` options and null strings are the empty string in the model; the
two behave the same everywhere in these files. Exceptions are the error
values `Fail(LocaleUndefined)` and `Err(LocaleCallableUndefined)`.

The two locale files disagree with `Count.php` on signatures:
`PortugueseLocale::simple` takes `(number, land)` and `format` takes
`(spelled, lands)`, while `Count.php` calls `simple` with one argument and
`format` with four. Each locale is modelled with its own signature; the
`land` argument of the Portuguese `simple` is accepted and unused.

## Model

| member | source | states |
|---|---|---|
| `Count.Normalize` | src/VanillaCount/Count.php:49-55 | the result holds only digits, its length is a multiple of three between the number of input digits and two more, and the digits are kept in order with the zeros on the requested side |
| `Count.NormalizeLeftValue` | src/VanillaCount/Count.php:54 | left padding keeps the numeric value of the digits |
| `Count.NormalizeRightValue` | src/VanillaCount/Count.php:54 | right padding multiplies the value by ten per zero added |
| `Count.NumberLands` | src/VanillaCount/Count.php:65-92 | there is always an integer land and every land is in 0..999 |
| `Count.GetNumberLands` | src/VanillaCount/Count.php:65-92 | the method that builds the lands and rewrites each chunk to its integer value computes exactly `NumberLands` |
| `Count.ToValues` | src/VanillaCount/Count.php:87-89 | the in-place `(int) ltrim` pass turns every chunk into its integer value |
| `Count.IntegerLandsValue` | src/VanillaCount/Count.php:69-84 | the integer lands read in base one thousand (key 0 the units group) give the value of the digits before the first dot |
| `Count.FractionLandsChunks` | src/VanillaCount/Count.php:74-78 | fraction land i (key -(i+1)) holds digits 3i..3i+2 of the right-padded fraction, so key -1 is the most significant chunk |
| `Count.FractionLandShort` | src/VanillaCount/Count.php:74-80 | with at most three fraction digits there is one fraction land, the digits padded on the right to three; without a dot there is none |
| `Count.FractionPresent` | src/VanillaCount/Count.php:69-80 | there are fraction lands exactly when the trimmed input has a dot, and an all-zero fraction still gives a land |
| `Count.LandsOfOnePointOhOhTwo` | src/VanillaCount/Count.php:69-80 | "1.002" gives the land -1 => 2 ahead of 0 => 1 |
| `Count.LandsOfPointOhOne` | src/VanillaCount/Count.php:74-78 | ".01" gives the cents land 10 over a zero units land |
| `Count.SimpleOf` | src/VanillaCount/Count.php:112-118 | a land gets no words exactly when it is zero, in either locale |
| `Count.SpellEach` | src/VanillaCount/Count.php:110-122 | the spelling loop builds exactly the list `SpelledLands` |
| `Count.SpelledShape` | src/VanillaCount/Count.php:110-122 | each prefix of the spelling pass is in array order, carries the locale's words for its land, and holds every non-zero land seen so far |
| `Count.SpelledExactly` | src/VanillaCount/Count.php:110-122 | the spelled lands are in array order under their own keys, and a land is spelled if and only if it is non-zero |
| `Count.NothingSpelled` | src/VanillaCount/Count.php:110-122 | nothing is spelled if and only if every land is zero |
| `Count.CentsLand` | src/VanillaCount/Count.php:74-78 | at most two fraction digits give at most one fraction land, a multiple of ten |
| `Count.SpellLands` | src/VanillaCount/Count.php:105-125 | spelling the lands and handing them to the locale's `format` gives `Compose` |
| `Count.Spell` | src/VanillaCount/Count.php:102-126 | `spell` is the locale's `format` of the spelled lands of the number |
| `Count.SpellZero` | src/VanillaCount/Count.php:102-126 | a number whose lands are all zero spells as the zero word (through the currency wrapper with value 0 in English, "zero" in Portuguese) |
| `English.DefaultsWellFormed` | src/VanillaCount/Locale/EnglishLocale.php:18-97 | the default word table has a word for each of 1..19 and the tens 20..90, and none for zero |
| `English.Simple` | src/VanillaCount/Locale/EnglishLocale.php:106-138 | the result is null if and only if the group is zero, and a table word is returned as is |
| `English.SimpleIsSpoken` | src/VanillaCount/Locale/EnglishLocale.php:106-138 | with the basic table, `simple` is the digit-wise reading: hundreds word + hundredSpell, then hundredSeparator (or " ") and the rest only when the last two digits are not zero; tens word + compoundSeparator (or " ") + units word for 21..99 off the tens |
| `English.DefaultSpellings` | src/VanillaCount/Locale/EnglishLocale.php:109-137 | with the defaults 21 is "twenty-one", 100 "one hundred", 101 "one hundred and one" and 0 has no words |
| `English.Wrap` | src/VanillaCount/Locale/EnglishLocale.php:266-288 | as a number the phrase is unchanged; as currency it is followed by " " or, in the long case (integer side, separator set, no key 0 or 1 spelled, highest key at least 2), by currencySeparator, then the rule's word for the value |
| `English.Format` | src/VanillaCount/Locale/EnglishLocale.php:150-253 | the imperative `format` (suffix pass rewriting the spelled lands, cents taken out, join, cents appended) computes the corrected `FormatSpec` |
| `English.Thousands` | src/VanillaCount/Locale/EnglishLocale.php:174-237 | thousands and units: "identifier thousand" when the thousands land is one, else its words + " thousand", then lastSeparator when the pivot land is at most 100 or a multiple of 100 and defaultSeparator otherwise, then the units words |
| `English.MagnitudeWord` | src/VanillaCount/Locale/EnglishLocale.php:174-193 | a lone spelled group from key 1 up reads as the identifier and a space (nothing when the identifier is null) then its magnitude word when its land is exactly one, and otherwise as its words, " " and its magnitude word |
| `English.MagnitudeWordInner` | src/VanillaCount/Locale/EnglishLocale.php:174-193 | every group from key 1 up other than the highest ends, after the suffix pass, in " " + its magnitude word, whatever its land |
| `English.ThousandExamples` | tests/VanillaCount/Locale/EnglishLocaleTest.php:322-323 | 1000 (a lone thousands group of land one) reads "a thousand" with the identifier "a" and "thousand" with no identifier |
| `English.FirstOneHundred` | src/VanillaCount/Locale/EnglishLocale.php:157-170 | a lone units group from 100 to 199 under an identifier other than "one", whose words are "one " and a rest without another "one ", reads as the identifier and a space (nothing when it is null) followed by that rest |
| `English.HundredExamples` | tests/VanillaCount/Locale/EnglishLocaleTest.php:319-320 | 100 alone reads "a hundred" with the identifier "a" and "hundred" with no identifier |
| `English.CentsFollowInteger` | src/VanillaCount/Locale/EnglishLocale.php:196-250 | with a cents land, the phrase is the phrase of the integer lands alone, then currencyDecimalSeparator (when both are present) and the cents spelled from the land divided by ten, wrapped on the decimal side |
| `English.ZeroCentsIgnored` | src/VanillaCount/Locale/EnglishLocale.php:224-237 | a fraction that spells to nothing leaves the phrase as it is without a fraction |
| `English.AsWrittenOneDollars` | src/VanillaCount/Locale/EnglishLocale.php:219-222 | as written "1.01" in dollars reads "one dollars and one cent"; corrected, "one dollar and one cent" |
| `English.AsWrittenZeroCentsJoin` | src/VanillaCount/Locale/EnglishLocale.php:227-237 | as written "1101.00" reads "one thousand and one hundred and one"; corrected, "one thousand, one hundred and one" |
| `Lands.JoinLandsTwo` | src/VanillaCount/Locale/EnglishLocale.php:227-237 | two groups join as the higher one, the separator the pivot land selects, then the lower one |
| `Lands.JoinLandsSameSeparators` | src/VanillaCount/Locale/PortugueseLocale.php:204-217 | the pivot land only decides the last separator: with equal separators the join is a plain implode, highest group first |
| `Lands.ImplodeLast` | src/VanillaCount/Locale/PortugueseLocale.php:209-213 | imploding a list is imploding all but its last element, then the separator and that element |
| `Portuguese.WordsKeys` | src/VanillaCount/Locale/PortugueseLocale.php:15-52 | the word table has a word exactly for 1..20, the tens and the hundreds |
| `Portuguese.Simple` | src/VanillaCount/Locale/PortugueseLocale.php:118-149 | null if and only if the group is zero; 100 is "cem"; any other table number is its table word |
| `Portuguese.SimpleIsParts` | src/VanillaCount/Locale/PortugueseLocale.php:118-149 | apart from 100 alone, `simple` is the table words of at most three parts (hundreds, then one named number or tens and units) joined by " e " |
| `Portuguese.HundredExamples` | src/VanillaCount/Locale/PortugueseLocale.php:120-137 | 100 is "cem" and 101 is "cento e um" |
| `Portuguese.TwentyOne` | src/VanillaCount/Locale/PortugueseLocale.php:139-146 | 21 is "vinte e um": tens and units joined by " e " |
| `Portuguese.NineNineNine` | src/VanillaCount/Locale/PortugueseLocale.php:130-146 | 999 is "novecentos e noventa e nove": hundreds, then the rest below one hundred, each joined by " e " |
| `Portuguese.Format` | src/VanillaCount/Locale/PortugueseLocale.php:159-218 | the imperative `format` (suffix pass rewriting the spelled lands, then the join) computes `FormatSpec` |
| `Portuguese.ThousandWord` | src/VanillaCount/Locale/PortugueseLocale.php:175-185 | after the suffix pass the thousands group is exactly "mil" when its land is one, and its words + " mil" otherwise |
| `Portuguese.MillionWord` | src/VanillaCount/Locale/PortugueseLocale.php:187-196 | a group from key 2 up keeps its words and takes " " + its root + "ão" below two, "ões" from two |
| `Portuguese.LoneGroup` | src/VanillaCount/Locale/PortugueseLocale.php:199-202 | a single spelled group other than the units group is returned alone after its suffix |
| `Portuguese.Thousands` | src/VanillaCount/Locale/PortugueseLocale.php:174-217 | thousands and units: "mil" or words + " mil", then " e " when the first land is at most 100 or a multiple of 100 and ", " otherwise, then the units words |
| `Portuguese.OneThousandExamples` | src/VanillaCount/Locale/PortugueseLocale.php:174-217 | "1001" is "mil e um" and "1101" is "mil, cento e um" |
| `Portuguese.MillionExamples` | src/VanillaCount/Locale/PortugueseLocale.php:187-202 | one million is "um milhão" (the "um" is kept) and two million "dois milhões" |
| `Currencies.Rule.Name` | src/VanillaCount/Currency/Currency.php:152-161 | the common rule gives the singular word when the value is at most one and the plural otherwise, on either side |
| `Currencies.Split3` | src/VanillaCount/Currency/Currency.php:56 | splitting on maximal runs of non-alphanumerics gives one to three pieces |
| `Currencies.Split3Pieces` | src/VanillaCount/Currency/Currency.php:56 | one piece exactly when the string is all alphanumeric, and then it is the string; the first two pieces are alphanumeric; each cut is a maximal run of separators between them; a third piece is the whole rest after the second cut |
| `Currencies.SplitTwo` | src/VanillaCount/Currency/Currency.php:56 | two alphanumeric pieces around one separator run split back into exactly those two pieces |
| `Currencies.SplitThree` | src/VanillaCount/Currency/Currency.php:56 | two alphanumeric pieces and a rest, around two separator runs, split back into exactly those three pieces |
| `Currencies.TagOfTwo` | src/VanillaCount/Currency/Currency.php:54-82 | a trimmed tag of two truthy pieces gives the first in lower case, then that, "-" and the second in upper case |
| `Currencies.TagOfThree` | src/VanillaCount/Currency/Currency.php:54-82 | a trimmed tag of three truthy pieces adds a third form: the second form, "-" and the third piece trimmed, as written |
| `Currencies.SplitOfSpacedUnderscore` | tests/VanillaCount/Currency/CurrencyTest.php:74 | " pt_BR " gives ["pt", "pt-BR"] |
| `Currencies.SplitOfRegion` | tests/VanillaCount/Currency/CurrencyTest.php:84 | "pt-BR- rj " gives ["pt", "pt-BR", "pt-BR-rj"] |
| `Currencies.EmptyTag` | tests/VanillaCount/Currency/CurrencyTest.php:66 | the empty tag gives no forms |
| `Currencies.LocaleSplitted` | src/VanillaCount/Currency/Currency.php:54-82 | at most three forms, none when no piece is kept, each a proper prefix of the next (least to most specific) |
| `Currencies.SplittedDistinct` | src/VanillaCount/Currency/Currency.php:71-79 | the forms of a tag are pairwise distinct |
| `Currencies.LocaleNormalized` | src/VanillaCount/Currency/Currency.php:91-96 | the last form, or null when there is none |
| `Currencies.NormalizedDot` | tests/VanillaCount/Currency/CurrencyTest.php:99 | "pt.BR" normalises to "pt-BR" |
| `Currencies.NormalizedPlusRegion` | tests/VanillaCount/Currency/CurrencyTest.php:100 | "pt.BR + RJ" normalises to "pt-BR-RJ" |
| `Currencies.NormalizedEmpty` | src/VanillaCount/Currency/Currency.php:91-96 | the empty tag (null) normalises to null |
| `Currencies.Unique` | src/VanillaCount/Currency/Currency.php:196 | `array_unique` has no repetitions and keeps exactly the members of its input |
| `Currencies.UniqueOrder` | src/VanillaCount/Currency/Currency.php:196 | `array_unique` keeps the tags in the order of their first occurrences in its input |
| `Currencies.LocalesOrderedShape` | src/VanillaCount/Currency/Currency.php:183-197 | the ordered tags have no repetitions, hold exactly the default, alternative and main forms, and end with the default forms reversed; the main tag's own forms come first, most specific first, then the alternatives' forms, then the defaults |
| `Currencies.OrderedExample` | tests/VanillaCount/Currency/CurrencyTest.php:222-223 | "pt.BR" with the alternatives "en-US" and "es ES" is tried as "pt-BR", "pt", "en-US", "en", "es-ES", "es" |
| `Currencies.FirstKnown` | src/VanillaCount/Currency/Currency.php:209-221 | the rule of the first tag the table knows, with no earlier tag known; the error exactly when no tag is known |
| `Currencies.DefaultsNeverFail` | src/VanillaCount/Currency/Currency.php:209-221 | a table that knows one of its default forms never fails a lookup |
| `Currencies.FallsBackToDefault` | src/VanillaCount/Currency/Currency.php:183-221 | with one default form, a tag whose other forms the table does not know is answered with the default rule |
| `Currencies.OwnRuleFirst` | src/VanillaCount/Currency/Currency.php:183-221 | a plain tag the table knows is answered with its own rule ahead of the default |
| `Currencies.Currency.constructor` | src/VanillaCount/Currency/Currency.php:19-25 | a currency starts with an empty table and no default forms |
| `Currencies.Currency.SetDefaultLocale` | src/VanillaCount/Currency/Currency.php:169-172 | the default forms become the split of the tag; the table is unchanged |
| `Currencies.Currency.AddLocale` | src/VanillaCount/Currency/Currency.php:106-121 | a tag that normalises to null fails and changes nothing; otherwise the rule is stored under the normal form, and only the first add sets the default forms |
| `Currencies.Currency.AddLocaleAlias` | src/VanillaCount/Currency/Currency.php:131-141 | fails and changes nothing exactly when the base's key (its normal form, or "" for a tag that normalises to null) is not in the table; otherwise the alias's key maps to the rule under the base's key and nothing else changes |
| `Currencies.Currency.AddLocaleCommon` | src/VanillaCount/Currency/Currency.php:152-161 | `AddLocale` of the singular/plural rule built from the four words |
| `Currencies.Currency.GetLocaleCallable` | src/VanillaCount/Currency/Currency.php:209-221 | the search loop returns the rule of the first ordered tag in the table, or the error when there is none |
| `Currencies.Currency.Dollar` | src/VanillaCount/Currency/DollarCurrency.php:14-24 | the table is exactly en, pt and es (es sharing pt's rule) and the default forms are ["en"]; no step fails |
| `Currencies.Currency.Real` | src/VanillaCount/Currency/RealCurrency.php:14-24 | the table is exactly pt, en and es (es sharing pt's rule) and the default forms are ["pt"]; no step fails |
| `Currencies.DollarLookups` | src/VanillaCount/Currency/DollarCurrency.php:17-23 | with the English default, each tag of the dollar table is answered with its own rule: "en" dollar/dollars/cent/cents, "pt" and "es" dólar/dólares/centavo/centavos |
| `Currencies.DollarFallback` | src/VanillaCount/Currency/DollarCurrency.php:17-19 | a tag none of whose forms other than "en" the dollar table knows ("en-US", "fr") gets the English names |
| `Currencies.RealLookups` | src/VanillaCount/Currency/RealCurrency.php:17-23 | with the Portuguese default, each tag of the real table is answered with its own rule: "pt" and "es" real/reais/centavo/centavos, "en" real/reais/cent/cents |
| `Currencies.RealFallback` | src/VanillaCount/Currency/RealCurrency.php:17-19 | a tag none of whose forms other than "pt" the real table knows ("pt-BR", "fr") gets the Portuguese names |

## Left out

- `Currency::getInstance` (Currency.php:37-44): the process-wide singleton registry is not modelled; a currency is an ordinary object.
- `Locale::getLocale`, option merging and `getCurrency` are not part of this model (src/VanillaCount/Locale/Locale.php declares only abstract signatures): the English options record and, in currency mode, the already resolved naming rule are parameters.
- `addLocale` with an arbitrary callable: the only callables this code registers are the `addLocaleCommon` closures, modelled as the `Rule` datatype.
- PHP float inputs and float-to-string conversion (`1500.00` becoming "1500"): inputs are strings.
- English fraction lands below -1 and cents lands that are not a multiple of ten (where `v / 10` becomes a PHP float): the English speller requires at most two fraction digits. The Portuguese speller, which has no decimal handling, takes any input; its fraction lands stay in the join as the source has it.
- Numbers past the end of `highSpells` or `millionRoots`: the missing magnitude word reads as null (the empty string), as PHP's undefined index does, instead of being excluded.
- The Portuguese gender option and currency mode: this version of PortugueseLocale.php has neither.
- `str_split` of an empty string gives `[""]` (PHP before 8.2), so an input without integer digits has one zero units land.
- `strtolower` and `strtoupper` touch ASCII letters only; the input is a sequence of single-byte characters.
- English.CentsFollowInteger: excludes a lone units land from 100 to 199 under an identifier other than "one", because without cents that land takes the identifier substitution and after the cents are taken out it does not.
- English.Format: computes the corrected revision; the code as written is `FormatIn(AsWritten, …)` (see Findings).

## Findings

| source | as written | input that shows it | evidently intended | confidence | as-written member | corrected member |
|---|---|---|---|---|---|---|
| src/VanillaCount/Locale/EnglishLocale.php:219-222 | a lone integer land left after the cents are taken out is always wrapped with value 2 (plural), also when it is the units land | "1.01" in dollars gives "one dollars and one cent" | the units land is wrapped with its own value: "one dollar and one cent", the phrase of "1" followed by the cents | medium, not executed | `English.AsWrittenOneDollars` | `English.CentsFollowInteger` |
| src/VanillaCount/Locale/EnglishLocale.php:227 | `reset($numberLands)` picks the first land of the array, which is the zero cents land -1 when the cents are "00" and no cents were spelled | "1101.00" gives "one thousand and one hundred and one" | the join looks at the units land, as for "1101": "one thousand, one hundred and one" | medium, not executed | `English.AsWrittenZeroCentsJoin` | `English.ZeroCentsIgnored` |
