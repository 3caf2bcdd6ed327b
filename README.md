# regisBOTelegram text pipeline in Dafny

This project models the text pipeline of the regisBOTelegram expense bot.
The pipeline turns a typed message such as "50 almuerzo en restaurante" into
an expense: an amount, a description and a payment method. The model covers
these parts:

- the message parser (`parseExpenseMessage`);
- the synonym classifier that picks a subcategory for a description
  (`normalizeText`, `extractWords`, `scoreSubcategory`, `classifyExpense`);
- the capitalisation helpers;
- the first-match keyword search of the subcategory and payment method
  services;
- the parts of the expense service that compute rather than query: the
  record `createExpense` stores, the first day of the month used as a date
  filter, the monthly total and the per-category and per-payment-method
  totals.

Files:

- `Wrappers.dfy`: the `Option` and `Result` types.
- `Strings.dfy`: the JavaScript string built-ins the code uses.
- `Helpers.dfy`: `capitalizeSentence` and `capitalizeWords`.
- `Classifier.dfy`: the synonym classifier.
- `KeywordSearch.dfy`: the search loop shared by the two services.
- `SubcategoryService.dfy` and `PaymentMethodService.dfy`: the two
  classification calls.
- `Parser.dfy`: the message parser.
- `ExpenseService.dfy`: the expense service.

Imperative code stays imperative. The classifier's three nested loops, its
loop over the catalog, the services' search loops, the parser's token loop
and the totals' dictionary loop are methods with loops. Each method is proved
against a specification function, or against a first-match or maximum
property stated outright. Pure code is modelled as functions. Lemmas relate the
functions to partners: split and join are each other's inverse, normalisation
works character by character before its trim, turns special characters into
spaces, drops white space at either end, is idempotent and ignores case and
accents, word extraction is pinned on
plain text, the cleaning of a token works character by character, and the
group totals add up to the monthly total.

Whatever the code reads from the database is an input of the model. A query
outcome is a `Result` whose error is the thrown error. The row of a
`maybeSingle` lookup is an `Option`. The Jaro-Winkler test is a parameter
`similar`, and the synonym catalog is a sequence of entries in the order
`Object.entries` gives.

The parser splits the message at its first '.' and keeps the piece before
it as the amount-and-description text. A decimal point in the amount
therefore also splits the message: "25.50 uber" gives the amount 25, the
placeholder description, and "50 uber" as the payment hint
(`Parser.DecimalPointSplitsMessage` states the split, the single token "25"
and its value; `Parser.ReadAmount` then gives the placeholder for a single
token). The model follows the code here,
although the comment at `src/utils/parser.js:7` gives "150.50 uber a casa
tarjeta" as an accepted format. The payment hint is the second piece of the
split, so any text after a second '.' is dropped (`Parser.MessageParts`). It
does not reach the payment method search.

## Model

| member | source | states |
|---|---|---|
| Strings.TrimAfterBlank | src/utils/classifier.js:22 | white space in front of a string does not change its `trim()` |
| Strings.TrimBeforeBlank | src/utils/classifier.js:22 | white space behind a string does not change its `trim()` |
| Strings.Trim | src/utils/helpers.js:6 | `trim()` returns the slice between the leading and the trailing white space: no white space at either end, and empty exactly when the input is all white space |
| Strings.JoinSplitOn | src/utils/helpers.js:19-21 | joining the pieces of `split(sep)` with `sep` gives the string back |
| Strings.SplitOnJoin | src/utils/helpers.js:19-21 | splitting a join of separator-free pieces gives the pieces back |
| Strings.SplitOnCons | src/utils/parser.js:20 | a split yields the text up to the first separator, followed by the pieces of the rest |
| Strings.SplitOn | src/utils/helpers.js:19 | `split(sep)` for a one-character separator: at least one piece and no piece holding the separator; Strings.JoinSplitOn and Strings.SplitOnJoin make it the inverse of Strings.Join |
| Strings.Join | src/utils/parser.js:40 | `join(sep)`; undone by Strings.SplitOn on separator-free pieces and by Strings.SplitWs on non-empty white-space-free pieces |
| Strings.SplitWs | src/utils/classifier.js:31 | `split(/\s+/)` yields at least one piece, and no piece contains white space; Strings.SplitWsRun and Strings.SplitWsWhole fix the pieces of every string, and Strings.SplitWsJoin makes it the inverse of joining with single spaces |
| Strings.SplitWsRun | src/utils/classifier.js:31 | the cut is at a whole run of one or more white-space characters of any kind: a white-space-free piece (possibly empty), a run and a rest that does not start with white space split into the piece followed by the pieces of the rest |
| Strings.SplitWsRunAt | src/utils/parser.js:21 | the same cut stated at positions of one string: the prefix before a maximal run of white space is the first piece and the rest after the run gives the other pieces |
| Strings.SplitWsWhole | src/utils/classifier.js:31 | a string without white space is its single piece |
| Strings.SplitWsJoin | src/utils/classifier.js:31 | splitting on white space gives back the pieces of a join with single spaces when no piece is empty or holds white space |
| Strings.SplitWsPiecesNonEmpty | src/utils/parser.js:21 | a non-empty trimmed string splits on white space into non-empty pieces |
| Strings.Includes | src/services/subcategoryService.js:37 | `includes` holds exactly when the substring occurs at some position |
| Strings.LowerAppend | src/utils/classifier.js:18 | lower-casing distributes over concatenation |
| Strings.LowerIdempotent | src/services/subcategoryService.js:20 | lower-casing twice is lower-casing once |
| Strings.Lower | src/utils/classifier.js:18 | `toLowerCase`, character by character over the admitted alphabet; Strings.LowerCharFacts and Strings.LowerIdempotent state its properties |
| Strings.LowerCharFacts | src/utils/classifier.js:18 | a lower-cased character is not upper case; lower-casing is idempotent, changes only upper-case letters and neither makes nor removes white space |
| Strings.UpperCharFacts | src/utils/helpers.js:10 | an upper-cased character is not lower case; upper-casing changes only lower-case letters and is undone by lower-casing |
| Strings.SameLowerCase | src/utils/helpers.js:6-10 | two characters with the same lower case are equal when neither is upper case, and when neither is lower case |
| Helpers.CapitalizeSentence | src/utils/helpers.js:2-11 | a blank sentence comes back unchanged; any other sentence comes back trimmed, with the length of its trimmed text, in sentence case, and equal to the trimmed text up to case |
| Helpers.CapitalizeSentenceUnique | src/utils/helpers.js:6-10 | the result is the only sentence-cased string that equals the trimmed input up to case |
| Helpers.CapitalizeSentenceIdempotent | src/utils/helpers.js:2-11 | capitalising a capitalised sentence changes nothing |
| Helpers.CapitalizeFirst | src/utils/helpers.js:20 | `charAt(0).toUpperCase() + slice(1)`; its effect on whole sentences is stated by Helpers.JoinCapitalizedPieces and Helpers.CapitalizeWordsAt |
| Helpers.CapitalizeWords | src/utils/helpers.js:14-22 | "" comes back as given; any other sentence is lower-cased, split on ' ', capitalised piece by piece and joined; Helpers.CapitalizeWordsAt states the result character by character |
| Helpers.JoinCapitalizedPieces | src/utils/helpers.js:19-21 | split on ' ', capitalise each piece and join: the result upper-cases the first character and every character after a space, and keeps the rest |
| Helpers.CapitalizeWordsAt | src/utils/helpers.js:14-22 | `capitalizeWords` keeps the length and every space; it upper-cases the first character and each character after a space, and lower-cases every other character |
| Classifier.Normalize | src/utils/classifier.js:15-23 | empty text gives ""; the result holds only lower-case unaccented word characters and white space, with no white space at either end; Classifier.NormalizeStages, Classifier.NormalizeBlanksSpecial, Classifier.NormalizeDropsLeadingBlank and Classifier.NormalizeDropsTrailingBlank state what it does to any text, and the lemmas after them state its effect on case, accents and clean text |
| Classifier.StripAccents | src/utils/classifier.js:19-20 | `normalize('NFD')` followed by the removal of the accents, on the lower-case Spanish letters; Classifier.NormalizeIgnoresAccents states its effect |
| Classifier.RemoveMarks | src/utils/classifier.js:20 | removes the combining marks U+0300 to U+036F: no mark remains, every kept character comes from the input, and text without marks is unchanged |
| Classifier.RemoveMarksChar | src/utils/classifier.js:20 | a single character is removed exactly when it is a combining mark |
| Classifier.RemoveMarksAppend | src/utils/classifier.js:20 | mark removal distributes over concatenation, so all other characters survive in order |
| Classifier.BlankSpecials | src/utils/classifier.js:21 | every character that is neither a word character nor white space becomes a space; Classifier.NormalStagesFixed states that normalised text is left as it is |
| Classifier.NormalizeFixesNormal | src/utils/classifier.js:15-23 | text of lower-case unaccented word characters and white space, with no white space at either end, is its own normalisation |
| Classifier.NormalizeIgnoresCase | src/utils/classifier.js:18 | lower-casing the text first does not change its normalisation |
| Classifier.NormalizeIgnoresAccents | src/utils/classifier.js:19-20 | stripping the accents first does not change the normalisation |
| Classifier.CafeExample | src/utils/classifier.js:15-23 | "Café SA" and "cafe sa" both normalise to "cafe sa" |
| Classifier.NormalStagesFixed | src/utils/classifier.js:17-21 | on normalised text, lower-casing with accent stripping, mark removal and blanking of special characters each change nothing |
| Classifier.NormalizeStages | src/utils/classifier.js:15-23 | normalisation is the trimmed form of the text lower-cased, unaccented, unmarked and with special characters blanked, for every text including "" |
| Classifier.Cleaned | src/utils/classifier.js:18-21 | the text before the trim holds only lower-case unaccented word characters and white space |
| Classifier.CleanedAppend | src/utils/classifier.js:18-21 | the four stages before the trim work character by character: cleaning `a + b` is cleaning `a` followed by cleaning `b` |
| Classifier.CleanedSpecial | src/utils/classifier.js:21 | a character that is neither a word character, white space nor a mark once folded becomes one space |
| Classifier.NormalizeBlanksSpecial | src/utils/classifier.js:21 | replacing a special character anywhere in the text by a space does not change the normalisation |
| Classifier.NormalizeDropsLeadingBlank | src/utils/classifier.js:22 | white space in front of any text does not change its normalisation |
| Classifier.NormalizeDropsTrailingBlank | src/utils/classifier.js:22 | white space behind any text does not change its normalisation |
| Classifier.UberTaxiExample | src/utils/classifier.js:15-23 | "uber, taxi" normalises to "uber  taxi" |
| Classifier.NormalizeIdempotent | src/utils/classifier.js:15-23 | normalising normalised text changes nothing |
| Classifier.UberTaxiWords | src/utils/classifier.js:28-33 | "uber, taxi" gives the words "uber" and "taxi": the comma becomes a space and the run of two spaces is a single cut |
| Classifier.ListedIn | src/utils/classifier.js:32 | `stopWords.includes(w)` holds exactly when w is one of the stop words |
| Classifier.StopWordsShape | src/utils/classifier.js:32 | every stop word has at most three letters, except "para" |
| Classifier.KeepSignificant | src/utils/classifier.js:32 | every kept word is longer than two characters, is not a stop word, and is one of the pieces |
| Classifier.KeepSignificantAppend | src/utils/classifier.js:32 | the filter keeps the order of the pieces: it distributes over concatenation |
| Classifier.KeepSignificantCount | src/utils/classifier.js:32 | the filter keeps every copy of a significant piece and no copy of any other piece |
| Classifier.ExtractWords | src/utils/classifier.js:28-33 | empty text has no words; every word is significant and consists of lower-case word characters |
| Classifier.ExtractWordsOfPlainText | src/utils/classifier.js:28-33 | for non-empty lower-case words joined by single spaces, the words extracted are exactly the significant ones, in order and with their repeats |
| Classifier.PartScore | src/utils/classifier.js:49-71 | a keyword part contributes 0, 4, 6 or 10; a part shorter than 3 contributes 0; the contribution is 10 exactly when the part has at least 3 characters and equals the word |
| Classifier.KeywordParts | src/utils/classifier.js:45-46 | the parts of a keyword: its normalisation split on white space |
| Classifier.Score | src/utils/classifier.js:38-79 | the total score: for each word, the best contribution over all keyword parts, added up; Classifier.ScoreSubcategory computes it and the Score lemmas state its properties |
| Classifier.BestOverPartsIsMax | src/utils/classifier.js:44-73 | a word's best score is one of the four values; it is at least every part's contribution and, unless 0, equal to some part's contribution |
| Classifier.ScoreBounds | src/utils/classifier.js:38-79 | a subcategory's score is at most 10 per word, and is either 0 or at least the threshold 4 |
| Classifier.ScoreNoKeywords | src/utils/classifier.js:38-79 | a subcategory without keywords scores 0 |
| Classifier.ScoreAppend | src/utils/classifier.js:41-76 | each word is scored on its own: the score of a concatenation is the sum of the scores |
| Classifier.ScoreAtLeastHit | src/utils/classifier.js:41-76 | the score is at least what any single keyword part gives any single word |
| Classifier.ScoreZeroIff | src/utils/classifier.js:38-79 | the score is 0 exactly when no keyword part gives any word anything |
| Classifier.BestOverPartsLoop | src/utils/classifier.js:48-72 | the loop over the parts of a keyword extends the best score over the parts seen so far with these parts |
| Classifier.BestForWord | src/utils/classifier.js:42-73 | the loop over the keywords computes the best score over all their parts |
| Classifier.ScoreSubcategory | src/utils/classifier.js:38-79 | the loop over the words computes the total score of the specification |
| Classifier.WinnerUnique | src/utils/classifier.js:100-104 | with the strict comparison, at most one entry wins |
| Classifier.LeaderIsWinner | src/utils/classifier.js:94-108 | the leader over the whole catalog, when it reaches the threshold, is the winner |
| Classifier.NoneScoredNoHit | src/utils/classifier.js:94-104 | when no entry taking part has a positive score, no entry gets any hit |
| Classifier.BestEntry | src/utils/classifier.js:91-104 | the catalog loop skips the two catch-all entries; it returns either nothing, when every other entry scores 0, or the first entry with the highest positive score, together with that score |
| Classifier.ClassifyExpense | src/utils/classifier.js:85-111 | no significant words gives null; a result is never a catch-all entry and is the unique winner; when all names are non-empty there is a result exactly when some non-catch-all entry scores above 0 |
| KeywordSearch.FirstMatch | src/services/subcategoryService.js:33-41 | the nested loop returns nothing exactly when no row matches; otherwise it returns the first matching row in fetched order |
| KeywordSearch.NoKeywordsNoMatch | src/services/subcategoryService.js:34 | a row with a null or empty keyword list never matches |
| KeywordSearch.EmptyKeywordMatches | src/services/subcategoryService.js:37 | an empty keyword matches every description |
| KeywordSearch.MatchIgnoresCase | src/services/subcategoryService.js:37 | lower-casing the description or the keyword first does not change whether it matches |
| KeywordSearch.VerbatimKeywordMatches | src/services/subcategoryService.js:37 | a keyword that occurs verbatim in the description matches |
| KeywordSearch.FirstMatchUnique | src/services/subcategoryService.js:33-41 | there is only one first match |
| KeywordSearch.FirstMatchIgnoresLaterRows | src/services/subcategoryService.js:33-41 | rows after the first match do not change it |
| SubcategoryService.ClassifyExpense | src/services/subcategoryService.js:19-51 | a missing description throws a TypeError; a query error is thrown on; otherwise the result is the first matching subcategory or, when none matches, the "Otros no clasificados" lookup |
| PaymentMethodService.ClassifyPaymentMethod | src/services/paymentMethodService.js:53-85 | a missing description throws a TypeError; a query error is thrown on; otherwise the result is the first matching payment method or, when none matches, the "Efectivo" lookup |
| Parser.MainPart | src/utils/parser.js:20 | the main part is the longest prefix of the message without '.', ending where the first '.' is |
| Parser.PaymentPart | src/utils/parser.js:20 | the payment part is absent exactly when the message has no '.'; when present it contains no '.'; Parser.MessageParts states where it ends |
| Parser.MessageParts | src/utils/parser.js:20 | main part, '.', and payment part form a prefix of the message, followed by the end of the message or by a second '.' |
| Parser.SplitAtPoint | src/utils/parser.js:20 | a message with exactly one '.' splits into the text before it and the text after it |
| Parser.DecimalPointSplitsMessage | src/utils/parser.js:20-30 | "25.50 uber" has the main part "25", whose only token "25" reads as 25, and the payment part "50 uber" |
| Parser.Tokens | src/utils/parser.js:21 | `mainPart.trim().split(/\s+/)`; Parser.TokensShape and Parser.SingleNumberToken state its results |
| Parser.SingleNumberToken | src/utils/parser.js:21 | a run of digits is a single token, itself |
| Parser.TokensShape | src/utils/parser.js:21 | tokens contain no white space, and none is empty unless the main part is blank |
| Parser.KeepNumeric | src/utils/parser.js:29 | the cleaned token holds only digits, '.' and ',' and is no longer than the token |
| Parser.KeepNumericChar | src/utils/parser.js:29 | one character survives the cleaning exactly when it is a digit, '.' or ',' |
| Parser.KeepNumericAppend | src/utils/parser.js:29 | the cleaning distributes over concatenation, so every digit, '.' and ',' survives in order and nothing else does |
| Parser.KeepNumericKeeps | src/utils/parser.js:29 | cleaning keeps a token made only of digits, '.' and ',' unchanged |
| Parser.ReplaceFirstComma | src/utils/parser.js:29 | only the first ',' becomes '.', and nothing else changes |
| Parser.ReplaceCommaAt | src/utils/parser.js:29 | a token with a first ',' between `a` and `b` becomes `a.b` |
| Parser.LeadingDigits | src/utils/parser.js:30 | the longest prefix made of digits |
| Parser.FractionValue | src/utils/parser.js:30 | the value of a digit string after a decimal point lies between 0 and 1 |
| Parser.ParseFloat | src/utils/parser.js:30 | a parsed number is never negative |
| Parser.LeadingDigitsStop | src/utils/parser.js:30 | the digit run stops at the first non-digit |
| Parser.ParseWhole | src/utils/parser.js:30 | a run of digits parses as its decimal value |
| Parser.ParseDecimal | src/utils/parser.js:30 | `w.f` parses as the value of `w` plus the fraction `0.f`, as long as one side has a digit |
| Parser.ParseNoDigits | src/utils/parser.js:30 | "", "." and a string starting with a character that is neither a digit nor '.' are NaN |
| Parser.WholeAmount | src/utils/parser.js:29-30 | a token whose cleaned text is a run of digits reads as the value of those digits |
| Parser.CommaDecimal | src/utils/parser.js:29-30 | a decimal comma reads as a decimal point |
| Parser.TokenAmount | src/utils/parser.js:29-30 | the number of a token: cleaned, first ',' as '.', then `parseFloat`; Parser.WholeAmount and Parser.CommaDecimal state its values |
| Parser.TwentyFive | src/utils/parser.js:29-30 | "25" reads as 25 |
| Parser.CommaIsDecimalPoint | src/utils/parser.js:29-30 | "25,50" reads as 25.5 |
| Parser.ZeroIsNoAmount | src/utils/parser.js:33 | "0" is not an amount, since the amount must be positive |
| Parser.WordIsNoNumber | src/utils/parser.js:29-30 | "uber" reads as NaN |
| Parser.CurrencySignDropped | src/utils/parser.js:29-30 | "$30" reads as 30 |
| Parser.ScanTokens | src/utils/parser.js:27-38 | the amount is the number of the first token that reads as positive, and absent when none does; the description is every token after it, in order, and nothing when there is no amount |
| Parser.DescriptionJoin | src/utils/parser.js:40 | the tokens collected after an amount join to "" exactly when there are none |
| Parser.ReadAmount | src/utils/parser.js:21-40 | amount and description of the main part: the first positive token's number, and the later tokens joined by spaces, or the placeholder when there are none or there is no amount |
| Parser.PaymentName | src/utils/parser.js:43-49 | the payment method is the found row's name whenever that name is non-empty; any other outcome, including a thrown error, gives "Efectivo" |
| Parser.ParseExpenseMessage | src/utils/parser.js:11-56 | a missing or empty message gives null, the placeholder and "Efectivo"; otherwise the amount and description come from the main part as above, and the payment method is "Efectivo" without a hint or on a query error, the first matching method's name on a match, and the cash lookup's name otherwise |
| ExpenseService.NewExpense | src/services/expenseService.js:4-15 | the stored description is a blank description unchanged, or any other description trimmed and in sentence case; the date is the given one, or today when none or "" is given; the user, subcategory, amount and payment method are stored as given |
| ExpenseService.NewExpenseDescriptionStable | src/services/expenseService.js:6 | storing a stored description again leaves the record as it is |
| ExpenseService.NatToString | src/services/expenseService.js:53 | `String(n)` is a non-empty string of digits |
| ExpenseService.NatToStringValue | src/services/expenseService.js:53 | `String(n)` reads back as `n` |
| ExpenseService.NatToStringNoLeadingZero | src/services/expenseService.js:53 | `String(n)` starts with '0' only for 0 |
| ExpenseService.NatToStringLength | src/services/expenseService.js:53 | a number below 10^d has at most d digits in `String(n)`, and exactly d when it is at least 10^(d-1) |
| ExpenseService.PadStart2 | src/services/expenseService.js:53 | `padStart(2, '0')` gives at least two characters, pads with zeros only, and keeps the original at the end |
| ExpenseService.MonthField | src/services/expenseService.js:53 | a calendar month becomes two digits that read back as the month |
| ExpenseService.YearField | src/services/expenseService.js:53 | a four-digit year becomes four digits that read back as the year |
| ExpenseService.StartDate | src/services/expenseService.js:53 | `${year}-${String(month).padStart(2, '0')}-01`; ExpenseService.StartDateIso states its layout |
| ExpenseService.StartDateIso | src/services/expenseService.js:53 | the start date is YYYY-MM-01, and year and month read back from it |
| ExpenseService.FieldOr | src/services/expenseService.js:93-94 | the field, or the default when the field is missing or empty: never empty, and equal to the default exactly when the field is missing, empty or the default itself |
| ExpenseService.CategoryKey | src/services/expenseService.js:93-95 | the category's icon, a space and its name, each with its default; ExpenseService.MissingRelationKeys states the defaults |
| ExpenseService.PaymentKey | src/services/expenseService.js:127-129 | the payment method's icon, a space and its name, each with its default |
| ExpenseService.MissingRelationKeys | src/services/expenseService.js:93-95 | rows without a category share one key, and rows without a payment method share one key |
| ExpenseService.Sum | src/services/expenseService.js:68 | the `reduce` over the amounts, from 0; ExpenseService.SumAppend and ExpenseService.TotalsAddUp state its properties |
| ExpenseService.SumAppend | src/services/expenseService.js:68 | summing in two parts gives the same total |
| ExpenseService.MonthlyTotal | src/services/expenseService.js:52-70 | a query error is thrown on; no rows give 0 |
| ExpenseService.SumFor | src/services/expenseService.js:91-101 | the amounts of the rows under one key, added in row order; ExpenseService.GroupTotals computes it for every key |
| ExpenseService.SumForAbsent | src/services/expenseService.js:91-103 | a key no row has sums to 0 |
| ExpenseService.GroupTotals | src/services/expenseService.js:91-103 | the dictionary has exactly the keys of the rows, and each key maps to the sum of the amounts of its rows |
| ExpenseService.CategoryTotals | src/services/expenseService.js:72-104 | a query error is thrown on; otherwise one total per category key, each the sum of that category's amounts |
| ExpenseService.PaymentMethodTotals | src/services/expenseService.js:106-138 | a query error is thrown on; otherwise one total per payment method key, each the sum of that method's amounts |
| ExpenseService.KeysInOrder | src/services/expenseService.js:91-103 | the keys in the order the dictionary receives them, without repeats |
| ExpenseService.KeysInOrderFirstSeen | src/services/expenseService.js:91-103 | of any two listed keys, some row with the earlier one comes before every row with the later one |
| ExpenseService.KeysInOrderAreKeys | src/services/expenseService.js:91-103 | the ordered keys are exactly the keys of the rows |
| ExpenseService.SumOverSnoc | src/services/expenseService.js:91-103 | one more row adds its amount to the totals of distinct keys when its key is among them, and nothing otherwise |
| ExpenseService.TotalsAddUp | src/services/expenseService.js:91-103 | the group totals add up to the sum of all amounts |
| ExpenseService.MonthlyTotalIsSumOfGroups | src/services/expenseService.js:52-70 | the monthly total equals the sum of the category totals and the sum of the payment method totals |

## Left out

- Unicode: characters are limited to ASCII plus the Spanish accented letters and their combining marks. Case mapping, `NFD` decomposition and `\s` are modelled for that alphabet only.
- Jaro-Winkler similarity (`natural.JaroWinklerDistance(...) >= 0.85`) is the parameter `similar`, which the model does not compute.
- The synonym catalog `SPANISH_SYNONYMS` is a parameter, a sequence of entries in `Object.entries` order. Its contents are not part of this model.
- Numbers are exact reals. Floating-point rounding in `parseFloat`, in `Number(...)` and in the sums is not modelled, and `parseFloat(amount)` in `createExpense` is taken as the identity on an amount that is already a number.
- Non-string inputs: `classifyExpense` of the classifier, `capitalizeSentence` and `capitalizeWords` take strings only. `null` and `undefined` are modelled as a `None` description in the services and the parser, and as an absent keyword list. A `null` element inside a keyword list is not modelled.
- The clock: `createExpense` reads today's date as the parameter `today`. The end date `new Date(year, month, 0)` of `getMonthlyTotal` and the other services is not modelled; the date range filtering is done by the database query, whose result is an input.
- Database calls and `await`: query results are inputs. The insert of `createExpense` and its error are left out. The error of the fallback `maybeSingle` lookup is ignored by the source, so the fallback is an `Option` row.
- Logging with `console.error` is left out.
- `formatCurrency` (Intl number formatting) is not part of this model.
- `getRecentExpenses` and the other query-only service functions, and the bot, web and server files, are not part of this model.
- Object key order of the totals: the result is a `map`, which has no order. `ExpenseService.KeysInOrder` gives the order in which the source object receives its keys.
- ExpenseService.StartDateIso: the YYYY-MM-01 layout is stated only for four-digit years and months 1 to 12. `ExpenseService.StartDate` builds the string for every year and month as the source does.
- ExpenseService.MonthlyTotal: the sum is exact, not a floating-point accumulation; see `ExpenseService.SumAppend` and `ExpenseService.MonthlyTotalIsSumOfGroups` for what is stated about it.
