# Quartz cron engine and store helpers, modelled in Dafny

This project models the Quartz-style cron engine of a Vue starter application, together with a
few small list, tree and table routines from the same repository, and proves what they promise.

The cron engine, in the order its data flows:

- **Field model and tables** (`cron_types.dfy`, `cron_constants.dfy`). The seven fields are
  seconds, minutes, hours, dayOfMonth, month, dayOfWeek and year. A field's model is one of ten
  modes. The value ranges, the SUN..SAT and JAN..DEC tables, the field order, the default model
  and the twelve error codes are fixed tables.
- **Validators** (`cron_validate.dfy`). Integer, range, step, list and bounded-integer checks.
  Each returns success or one error code, the first failure in a fixed order. The JavaScript
  coercions they rely on (`Number`, `${v}`, `trim`, `split`, `join`, `%`) are in `js_values.dfy`.
- **Parser** (`cron_parse.dfy`, `cron_parse_facts.dfy`). `expression2Model` turns a 6- or
  7-token expression into a partial model plus a per-field error map. Its loop over the fields
  is a method proved against a function of the tokens.
- **Serialiser** (`cron_serialize.dfy`, `cron_serialize_facts.dfy`). `model2Expression` writes
  seven tokens and re-validates each field. List values are sorted first (an insertion sort).
- **Round trip** (`cron_roundtrip.dfy`). Parsing a serialised model gives the model back with no
  errors, under three conditions: every field validates, at most one day field is specified, and
  no step starts below its field's step minimum.
- **Calendar and date cursor** (`calendar.dfy`, `date_cursor.dfy`). `Date` becomes a class
  `Cursor` over year, month (0-11), day, hours, minutes and seconds. Its setters roll
  out-of-range values over the way the MakeDay and MakeTime operations of section 21.4.1 of
  ECMA-262 do. The weekday is computed from a day count from 1970-01-01, a Thursday.
- **Field matcher** (`matcher_rules.dfy`, `field_matcher.dfy`). The calendar helpers,
  `commonMatch`, `commonNext` and `getFirstValidValue` work on values. The class `Matcher`
  reads and moves the shared cursor. Each of its methods is proved against a function of the
  cursor's date.
- **Scheduler** (`scheduler.dfy`, `format_date.dfy`). `getNextNTimes` is an odometer-like
  forward search with carry between units. It is given a bound (`fuel`) on its outer loop.
  `formatDate` zero-pads the parts of a date.

The smaller cores are:

- `permission.dfy`: the permission predicate;
- `menu.dfy`: menus generated from routes, empty-branch pruning and pre-order flattening;
- `page_cache.dfy`: two duplicate-free lists;
- `view_tab.dfy`: tabs, the active tab and the router pushes it records;
- `drag_sort.dfy`: moving an array element in place;
- `memory_store.dfy`: a key/value cache with expiry, the clock passed in as `now`;
- `omit.dfy`: `omit` on plain objects;
- `scroll_view.dfy`, `srcoll_view.dfy`: the two scroll clamps;
- `build_info.dfy`: the size fold and the map-to-record copy.

Behaviour kept as the code has it:

- `*/n` parses with `from = 0` for every field. So for the 1-based fields (dayOfMonth, month,
  year) the parsed model fails to serialise (`CronParseFacts.StarStepStartsAtZero`,
  `CronRoundTrip.StarStepDayOfMonth`). The round trip therefore carries the step-minimum
  condition.
- `getNthWeekdayOfMonth` documents its weekday as 0-6, but the code compares it with
  `getDay() + 1`. The model follows the code: Quartz weekdays 1 (Sunday) to 7.
- `?` is accepted for the year, and `commonMatch` rejects `unspecified`.
- `split('-')` and `split('/')` keep only the first two pieces, so `1-2-3` is the range 1-2.
- `commonNext` on a step of 0 never leaves its loop. The model states where that loop ends
  (`MatcherRules.StepEnds`) and requires it.

The functions that model the source's functions carry no table row of their own. Their
properties are stated by the lemmas and methods in the table. Each one models:

- `CronParse.TransformEnToNumber`: `transformEnToNumber` (expression-model.ts:28).
- `CronParse.ParseCommon`: `parseCommonExpression` (expression-model.ts:38).
- `CronParse.ParseDayOfMonth`: `parseDayOfMonthExpression` (expression-model.ts:143).
- `CronParse.ParseDayOfWeek`: `parseDayOfWeekExpression` (expression-model.ts:185).
- `CronParse.ParseToken`: the per-field dispatch inside `expression2Model` (expression-model.ts:279-304).
- `CronParse.ExpressionModel`: `expression2Model` (expression-model.ts:235).
- `CronSerialize.FieldModel2Expression`: `fieldModel2Expression` (model-expression.ts:27).
- `CronSerialize.Model2Expression`: `model2Expression` (model-expression.ts:193).
- `CronConstants.DefaultModel`: `DEFAULT_MODEL` (constants.ts:127).
- `MatcherRules.GetLastDay`: `getLastDay` (FiledMatcher.ts:10).
- `MatcherRules.GetNearestWeekday`: `getNearestWeekday` (FiledMatcher.ts:21).
- `MatcherRules.GetNthWeekdayOfMonth`: `getNthWeekdayOfMonth` (FiledMatcher.ts:45).
- `MatcherRules.LastWeekdayOfMonth`: `getLastWeekdayOfMonth` (FiledMatcher.ts:64).
- `MatcherRules.FirstValidValue`: `getFirstValidValue` (FiledMatcher.ts:82).
- `MatcherRules.CommonMatch`: `commonMatch` (FiledMatcher.ts:121).
- `MatcherRules.CommonNextValue`: `commonNext` (FiledMatcher.ts:139).
- `DateFormat.FormatDate`: `formatDate` (time.ts:4).
- `Permission.HasPermission`: `hasPermission` (permission.ts:1).
- `Menu.GenerateMenus`: `generateMenus` (menu.ts:9).
- `Menu.FilterEmptyMenus`: `filterEmptyMenus` (menu.ts:45).
- `Menu.FlatMenu`: `flatMenu` (menu.ts:58).
- `MemoryCache.IsExpired`: `isExpired` (memory.ts:18).
- `MemoryCache.Lookup`: the answer of `get` (memory.ts:30-40).
- `Omit.OmitKeys`: `omit` (useModal/utils.ts:137).
- `ScrollView.CalculateScrollSize`: `calculateScrollSize` (ScrollView/utils.ts:63).
- `SrcollView.CalculateScrollSize`: `calculateScrollSize` (SrcollView/utils.ts:50).
- `BuildInfo.CalculateSize`: `calculateSize` (rollup-plugin-build-info/utils.ts:3).

## Model

Source paths below are relative to the repository root.

| member | source | states |
|---|---|---|
| CronTypes.FieldCases | src/components/QuartzCron/types.ts:1-8 | every field is one of the seven |
| CronTypes.CronModel.ToMap | src/components/QuartzCron/types.ts:55-63 | the record has all seven fields, each holding the model's value for it |
| CronConstants.FieldBounds | src/components/QuartzCron/utils/constants.ts:84-100 | seconds and minutes 0-59, hours 0-23, dayOfMonth 1-31, month 1-12, dayOfWeek 1-7, year 1970-2099; the year's step lower bound is 1 and every other field's is its minimum |
| CronConstants.ListCountIsNumberOfValues | src/components/QuartzCron/utils/constants.ts:102-110 | every field has a maximum list length, equal to the number of values in its range, max - min + 1 |
| CronConstants.ListCountFromKeys | src/components/QuartzCron/utils/constants.ts:102-110 | the fold builds exactly one entry per field, max - min + 1 |
| CronConstants.IntervalSize | src/components/QuartzCron/utils/constants.ts:108 | the integers from lo to hi number hi - lo + 1 |
| CronConstants.WeekAbbreviations | src/components/QuartzCron/utils/constants.ts:7 | SUN..SAT are exactly the weekday keys and map to 1..7 in order |
| CronConstants.MonthAbbreviations | src/components/QuartzCron/utils/constants.ts:8 | JAN..DEC are exactly the month keys and map to 1..12 in order |
| CronConstants.FieldOrderIsFixed | src/components/QuartzCron/utils/constants.ts:117-125 | the order is seconds, minutes, hours, dayOfMonth, month, dayOfWeek, year, and it holds every field |
| CronConstants.FieldOrder | src/components/QuartzCron/utils/constants.ts:117-125 | position i holds the field of entry i of the labelled list |
| CronConstants.FieldIndex | src/components/QuartzCron/utils/constants.ts:117-125 | the position returned holds the field |
| CronConstants.FieldIndexOf | src/components/QuartzCron/utils/constants.ts:117-125 | positions and fields correspond one to one |
| CronConstants.DefaultModelShape | src/components/QuartzCron/utils/constants.ts:127-134 | the default model has every field: `unspecified` for dayOfWeek and `every` for the rest |
| CronConstants.DefaultModelFromEntries | src/components/QuartzCron/utils/constants.ts:127-134 | the fold has exactly the listed fields, with `unspecified` only for dayOfWeek |
| CronConstants.ErrorCodesClosed | src/components/QuartzCron/utils/constants.ts:136-149 | there are exactly twelve codes, and their names are distinct |
| JsValues.TrimStart | src/components/QuartzCron/utils/expression-model.ts:244 | the result is a suffix of the input; it drops only leading white space and starts with none |
| JsValues.TrimEnd | src/components/QuartzCron/utils/expression-model.ts:244 | the result is a prefix of the input; it drops only trailing white space and ends with none |
| JsValues.TrimNoSpace | src/components/QuartzCron/utils/expression-model.ts:244 | text without white space is its own trim |
| JsValues.StringToNumber | src/components/QuartzCron/utils/validate.ts:10 | `Number` of a string is NaN or a non-negative integer |
| JsValues.ToNumber | src/components/QuartzCron/utils/validate.ts:32-33 | `Number(v)` is always a number value, NaN included |
| JsValues.NumberOfNatText | src/components/QuartzCron/utils/validate.ts:32-33 | `Number` of the decimal text of n is n, and that text is not 'null', 'undefined' or '' |
| JsValues.NatToString | src/components/QuartzCron/utils/model-expression.ts:53 | the text of a natural number is a digit string without a leading zero |
| JsValues.NatToStringValue | src/components/QuartzCron/utils/model-expression.ts:53 | the decimal text of n reads back as n |
| JsValues.DigitValue | src/components/QuartzCron/utils/validate.ts:10 | proof helper, no behaviour of its own: a digit's value is below ten |
| JsValues.JsRem | src/components/QuartzCron/utils/FiledMatcher.ts:125 | JavaScript's `%` is the remainder of division truncated toward zero: a = q * b + r for a quotient q with abs(q * b) <= abs(a) and q * b of the sign of a; abs(r) < abs(b), and a non-zero r has the sign of a |
| JsValues.Split | src/components/QuartzCron/utils/expression-model.ts:58 | the pieces hold no separator, and there are two or more exactly when the text holds it |
| JsValues.SplitJoin | src/components/QuartzCron/utils/expression-model.ts:58 | joining the pieces with the separator gives the text back |
| JsValues.SplitNone | src/components/QuartzCron/utils/expression-model.ts:58 | text without the separator is one piece |
| JsValues.SplitAtFirst | src/components/QuartzCron/utils/expression-model.ts:58 | the first piece runs up to the first separator |
| JsValues.SplitOfJoin | src/components/QuartzCron/utils/expression-model.ts:103 | splitting the join of separator-free pieces gives the pieces back |
| JsValues.HeadTail | src/components/QuartzCron/utils/expression-model.ts:103 | proof helper, no behaviour of its own: a non-empty sequence is its head followed by its tail |
| CronValidate.IsInteger | src/components/QuartzCron/utils/validate.ts:5-17 | true only for a value whose text is not 'null', 'undefined' or '' and whose number is integral; on numbers, exactly the integral ones |
| CronValidate.IsIntegerRefuses | src/components/QuartzCron/utils/validate.ts:5-17 | false for null, undefined, '', NaN and every non-integral number |
| CronValidate.IsInRange | src/components/QuartzCron/utils/validate.ts:19-29 | true exactly for an integer with min <= v <= max |
| CronValidate.ValidateRange | src/components/QuartzCron/utils/validate.ts:31-66 | success iff both are integers with non-empty text and min <= start < end <= max; the first failure in the order NOT_INTEGER (either not integral), EMPTY (either text blank, 'null' or 'undefined'), OUT_OF_RANGE (start < min or end > max), START_GREATER_THAN_END (start >= end), each stated as an iff; only these four codes occur |
| CronValidate.ValidateRangeOnIntegers | src/components/QuartzCron/utils/validate.ts:51-63 | on integers the verdict is OUT_OF_RANGE, then START_GREATER_THAN_END, then success |
| CronValidate.ValidateStep | src/components/QuartzCron/utils/validate.ts:68-96 | success iff both are integers with non-empty text in [min, max]; NOT_INTEGER exactly when either is not integral; EMPTY exactly when both are integral and either text is blank, 'null' or 'undefined'; otherwise OUT_OF_RANGE |
| CronValidate.ValidateStepOnIntegers | src/components/QuartzCron/utils/validate.ts:88 | on integers: success iff min <= from <= max and min <= step <= max, so step 0 passes when min is 0 |
| CronValidate.ValidateList | src/components/QuartzCron/utils/validate.ts:98-158 | the loop with early returns gives the verdict of the check order NOT_LIST, LIST_EMPTY, LIST_LENGTH_EXCEEDED, per element NOT_INTEGER, EMPTY, LIST_NOT_SORTED, then OUT_OF_RANGE |
| CronValidate.ListValidationPass | src/components/QuartzCron/utils/validate.ts:98-158 | a list passes iff it is an array of 1 to max - min + 1 strictly increasing integers, all within [min, max] |
| CronValidate.ItemChecksPass | src/components/QuartzCron/utils/validate.ts:120-147 | every element passes its checks iff the list is strictly increasing integers with non-empty text |
| CronValidate.FirstFailureNone | src/components/QuartzCron/utils/validate.ts:120-147 | the loop finds no failure iff no element fails |
| CronValidate.ItemChecks | src/components/QuartzCron/utils/validate.ts:120-147 | one check per element, in index order |
| CronValidate.MinOf | src/components/QuartzCron/utils/validate.ts:150 | `Math.min` is an element no larger than any |
| CronValidate.MaxOf | src/components/QuartzCron/utils/validate.ts:150 | `Math.max` is an element no smaller than any |
| CronValidate.MinMaxWithin | src/components/QuartzCron/utils/validate.ts:149-155 | the min/max test holds iff every element lies in [min, max] |
| CronValidate.Numbers | src/components/QuartzCron/utils/validate.ts:123 | element i's number is the value of element i |
| CronValidate.ValidatedListDistinct | src/components/QuartzCron/utils/validate.ts:139-146 | a list that validates is strictly increasing, so no value occurs twice |
| CronValidate.StrictlyIncreasingStep | src/components/QuartzCron/utils/validate.ts:139-146 | the neighbour test orders any two positions |
| CronValidate.ValidateIntegerVal | src/components/QuartzCron/utils/validate.ts:160-176 | success iff an integer in [min, max]; NOT_INTEGER exactly for non-integers; otherwise OUT_OF_RANGE |
| CronValidate.IntegerValidatorRanges | src/components/QuartzCron/utils/validate.ts:178-195 | day accepts 1-31, offset 1-30, weekday 1-7 and weekNth 1-5, and no other integer |
| CronValidate.NatTextLikeNumber | src/components/QuartzCron/utils/validate.ts:5-17 | the text of n validates like n itself |
| CronParse.Texts | src/components/QuartzCron/utils/expression-model.ts:103 | the pieces become string values, one per piece, in order |
| CronParse.WordPrefix | src/components/QuartzCron/utils/expression-model.ts:252 | the leading word is a prefix without white space, followed by white space or the end |
| CronParse.Words | src/components/QuartzCron/utils/expression-model.ts:252 | `split(/\s+/)` gives non-empty tokens without white space |
| CronParse.Expression2Model | src/components/QuartzCron/utils/expression-model.ts:235-314 | the method returns what the specification function of the tokens gives |
| CronParse.ParseAllFields | src/components/QuartzCron/utils/expression-model.ts:268-313 | the loop fills the model and the errors exactly as the rounds of the specification do |
| CronParseFacts.StructuralErrors | src/components/QuartzCron/utils/expression-model.ts:236-261 | a non-string gives only NOT_STRING, a blank string only EMPTY, a token count other than 6 or 7 only LENGTH_ERROR; data is missing iff a global error is reported |
| CronParseFacts.SixTokensAddEveryYear | src/components/QuartzCron/utils/expression-model.ts:264-266 | six tokens parse exactly as the same tokens with `*` appended, and data is present |
| CronParseFacts.SevenTokens | src/components/QuartzCron/utils/expression-model.ts:252-313 | seven proper tokens joined by spaces parse field by field |
| CronParseFacts.ExpressionModelFields | src/components/QuartzCron/utils/expression-model.ts:252-313 | a well-formed expression has seven tokens, and its result is the field-by-field result on them |
| CronParseFacts.ExpressionOutcome | src/components/QuartzCron/utils/expression-model.ts:271-313 | each field is in the data or in the errors, never both, and nothing but fields is reported |
| CronParseFacts.ExpressionPartition | src/components/QuartzCron/utils/expression-model.ts:271-313 | a field is in the data iff its token parsed, with that model, and in the errors otherwise, with that code |
| CronParseFacts.FieldsPartition | src/components/QuartzCron/utils/expression-model.ts:271-313 | after the loop each field is in exactly one of data and errors, with its expected outcome |
| CronParseFacts.ParseFieldsCover | src/components/QuartzCron/utils/expression-model.ts:271-311 | after n rounds the first n fields carry their outcomes and no other field appears |
| CronParseFacts.ParseFieldRecords | src/components/QuartzCron/utils/expression-model.ts:272-310 | one round records the field's expected outcome |
| CronParseFacts.CoverStep | src/components/QuartzCron/utils/expression-model.ts:272-310 | recording one more outcome extends the covered prefix by one field |
| CronParseFacts.RecordFrames | src/components/QuartzCron/utils/expression-model.ts:283-309 | recording a field touches only that field's entry |
| CronParseFacts.ExpectedAll | src/components/QuartzCron/utils/expression-model.ts:271-311 | the expected outcome of each of the seven fields |
| CronParseFacts.ExpectedParsed | src/components/QuartzCron/utils/expression-model.ts:272-310 | a field that parsed got its token's own parse |
| CronParseFacts.FieldsNoDayConflict | src/components/QuartzCron/utils/expression-model.ts:291-294 | the data never holds both a specified dayOfMonth and a specified dayOfWeek |
| CronParseFacts.ExpressionNoDayConflict | src/components/QuartzCron/utils/expression-model.ts:291-294 | the same for the whole expression |
| CronParseFacts.QuestionMark | src/components/QuartzCron/utils/expression-model.ts:43-48 | `?` is `unspecified` for dayOfMonth, dayOfWeek and year, and INVALID_VALUE for the others |
| CronParseFacts.QuestionMarkDayOfWeek | src/components/QuartzCron/utils/expression-model.ts:185-233 | `?` passes through the dayOfWeek special forms to `unspecified` |
| CronParseFacts.ParseCommonSound | src/components/QuartzCron/utils/expression-model.ts:38-141 | a parsed common token is a common mode or `unspecified`, admitted by the field, with values in range |
| CronParseFacts.ParseRangeSound | src/components/QuartzCron/utils/expression-model.ts:57-76 | the `-` branch yields a range with min <= start < end <= max |
| CronParseFacts.ParseStepSound | src/components/QuartzCron/utils/expression-model.ts:78-100 | the `/` branch yields a step whose step lies in [step minimum, max] |
| CronParseFacts.ParseListSound | src/components/QuartzCron/utils/expression-model.ts:102-118 | the `,` branch yields a strictly increasing list within range |
| CronParseFacts.ParseSingleSound | src/components/QuartzCron/utils/expression-model.ts:120-135 | a bare integer yields a one-element list within range |
| CronParseFacts.ParseDayOfMonthSound | src/components/QuartzCron/utils/expression-model.ts:143-183 | a parsed dayOfMonth token is a mode that field admits, offsets 1-30 and days 1-31 |
| CronParseFacts.ParseDayOfWeekSound | src/components/QuartzCron/utils/expression-model.ts:185-233 | a parsed dayOfWeek token is a mode that field admits, weekdays 1-7 and weekNth 1-5 |
| CronParseFacts.ParseTokenSound | src/components/QuartzCron/utils/expression-model.ts:280-309 | whatever field, a parsed token is admitted by that field |
| CronParseFacts.StarStepExpr | src/components/QuartzCron/utils/expression-model.ts:78-100 | `*/n` with n in the step range is the step from 0 by n |
| CronParseFacts.StarStepStartsAtZero | src/components/QuartzCron/utils/expression-model.ts:96 | outside dayOfWeek, `*/n` parses with from = 0 |
| CronParseFacts.CommonIsRange | src/components/QuartzCron/utils/expression-model.ts:57 | a token holding `-` (other than `?` and `*`) goes to the range branch |
| CronParseFacts.RangeByTwoPieces | src/components/QuartzCron/utils/expression-model.ts:58 | the range branch depends only on the first two pieces |
| CronParseFacts.RangeKeepsFirstTwoPieces | src/components/QuartzCron/utils/expression-model.ts:58 | `a-b-rest` parses as `a-b` |
| CronParseFacts.RangeOfTexts | src/components/QuartzCron/utils/expression-model.ts:57-76 | `a-b` whose translated pieces are the texts of x < y in range is the range x-y |
| CronParseFacts.RangeOfNumberTexts | src/components/QuartzCron/utils/expression-model.ts:57-76 | any token whose first two pieces translate to such texts is that range |
| CronParseFacts.MonthNamesInRange | src/components/QuartzCron/utils/expression-model.ts:28-36 | `JAN-DEC`-style ranges translate names to their month numbers |
| CronParseFacts.MonthNameText | src/components/QuartzCron/utils/expression-model.ts:28-31 | a month name translates to the text of its number |
| CronParseFacts.MonthNameAlone | src/components/QuartzCron/utils/expression-model.ts:120-140 | a bare month name is INVALID_VALUE: names are resolved only in ranges and lists |
| CronParseFacts.BareInteger | src/components/QuartzCron/utils/expression-model.ts:120-135 | a bare integer is a one-element list when in range, and OUT_OF_RANGE otherwise |
| CronParseFacts.NoDigitText | src/components/QuartzCron/utils/expression-model.ts:120 | text starting with a non-digit, non-space character is not a number |
| CronParseFacts.DigitsNoSeparator | src/components/QuartzCron/utils/expression-model.ts:57-102 | a digit string holds none of `-`, `/`, `,`, `#`, `*` |
| CronParseFacts.WordsOfJoin | src/components/QuartzCron/utils/expression-model.ts:252 | splitting tokens joined by single spaces gives the tokens back |
| CronParseFacts.JoinedTokens | src/components/QuartzCron/utils/expression-model.ts:244-252 | tokens joined by spaces are already trimmed, non-blank, and split back into the tokens |
| CronParseFacts.SameTokensSameResult | src/components/QuartzCron/utils/expression-model.ts:252-313 | two expressions with the same tokens parse alike |
| CronParseFacts.WordPrefixOf | src/components/QuartzCron/utils/expression-model.ts:252 | the leading word of `w` followed by white space is `w` |
| CronParseFacts.WordsStep | src/components/QuartzCron/utils/expression-model.ts:252 | `w rest` splits into `w` and the words of `rest` |
| CronParseFacts.WordsOfOne | src/components/QuartzCron/utils/expression-model.ts:252 | a single word splits into itself |
| CronParseFacts.WordsAfterSpace | src/components/QuartzCron/utils/expression-model.ts:252 | leading white space does not change the words |
| CronParseFacts.TrimStartNonSpace | src/components/QuartzCron/utils/expression-model.ts:244 | text starting with a non-space is its own `trimStart` |
| CronParseFacts.JoinStartsWith | src/components/QuartzCron/utils/expression-model.ts:244 | tokens joined by spaces start with the first token's first character |
| CronParseFacts.JoinEndsWith | src/components/QuartzCron/utils/expression-model.ts:244 | and end with the last token's last character |
| CronSerialize.Insert | src/components/QuartzCron/utils/model-expression.ts:83 | inserting a value grows the list by one |
| CronSerialize.InsertFacts | src/components/QuartzCron/utils/model-expression.ts:83 | inserting into a sorted list keeps it sorted and adds exactly that value |
| CronSerialize.SortAscending | src/components/QuartzCron/utils/model-expression.ts:83 | sorting keeps the length |
| CronSerialize.SortAscendingFacts | src/components/QuartzCron/utils/model-expression.ts:83 | `sort((a, b) => a - b)` gives an ascending permutation of the values |
| CronSerialize.SortCanonical | src/components/QuartzCron/utils/model-expression.ts:83 | sorting a sorted list changes nothing, and the result depends only on the multiset of values |
| CronSerialize.SortedUnique | src/components/QuartzCron/utils/model-expression.ts:83 | two sorted arrangements of one multiset are equal |
| CronSerialize.SameHeads | src/components/QuartzCron/utils/model-expression.ts:83 | two sorted arrangements of one multiset start alike |
| CronSerialize.SortedHeadLeast | src/components/QuartzCron/utils/model-expression.ts:83 | a sorted list starts with its least value |
| CronSerialize.CodesOf | src/components/QuartzCron/utils/model-expression.ts:46-49 | a passing check pushes no code, a failing one exactly its code |
| CronSerialize.NumValues | src/components/QuartzCron/utils/model-expression.ts:85 | the values handed to `validateList` are the numbers, in order |
| CronSerialize.Model2Expressions | src/components/QuartzCron/utils/model-expression.ts:174-188 | one entry per field, in field order, with the field and its label |
| CronSerialize.ModelTokens | src/components/QuartzCron/utils/model-expression.ts:193-195 | token i is the text written for field i |
| CronSerializeFacts.SerialiseSuccess | src/components/QuartzCron/utils/model-expression.ts:27-172 | a field model serialises with success exactly when its values are valid for the field |
| CronSerializeFacts.ListValid | src/components/QuartzCron/utils/model-expression.ts:80-95 | a list serialises with success exactly when its values, sorted, are distinct, non-empty, not too many and in range |
| CronSerializeFacts.ListSuccess | src/components/QuartzCron/utils/model-expression.ts:80-95 | the list's verdict is the validation of its sorted values |
| CronSerializeFacts.ResultShape | src/components/QuartzCron/utils/model-expression.ts:27-172 | success iff no code was pushed; only `?`, `*` and `L` come without an error list; no code appears twice, and only `w#n` can push two |
| CronSerializeFacts.NthWeekCodes | src/components/QuartzCron/utils/model-expression.ts:129-149 | `w#n` reports the week number's failure first, then the weekday's, and each code comes from one of the two checks |
| CronSerializeFacts.ListOrderIrrelevant | src/components/QuartzCron/utils/model-expression.ts:80-95 | two lists with the same values serialise identically |
| CronSerializeFacts.EmptyListToken | src/components/QuartzCron/utils/model-expression.ts:80-95 | an empty list is written as the empty token and reported as LIST_EMPTY |
| CronSerializeFacts.TokenProper | src/components/QuartzCron/utils/model-expression.ts:35-169 | every token but an empty list's is non-empty and free of white space, whatever the verdict |
| CronSerializeFacts.ListTokenNonEmpty | src/components/QuartzCron/utils/model-expression.ts:92 | the joined list is empty only for the empty list |
| CronSerializeFacts.IntTextProper | src/components/QuartzCron/utils/model-expression.ts:53 | an integer's text is non-empty and has no white space |
| CronSerializeFacts.JoinNoSpace | src/components/QuartzCron/utils/model-expression.ts:92 | joining texts without white space gives none |
| CronSerializeFacts.NoSpaceConcat | src/components/QuartzCron/utils/model-expression.ts:53 | concatenation keeps texts free of white space |
| CronSerializeFacts.SortedDistinct | src/components/QuartzCron/utils/model-expression.ts:83-85 | a sorted list is strictly ascending exactly when no value repeats |
| CronSerializeFacts.SortedListValidation | src/components/QuartzCron/utils/model-expression.ts:85 | `validateList` of sorted integers, stated on the integers |
| CronSerializeFacts.NumValuesIncreasing | src/components/QuartzCron/utils/model-expression.ts:85 | number values are strictly increasing exactly when the integers are |
| CronSerializeFacts.PermutationWithin | src/components/QuartzCron/utils/model-expression.ts:83-85 | bounds on all values survive sorting |
| CronSerializeFacts.StrictCons | src/components/QuartzCron/utils/model-expression.ts:83-85 | proof helper, no behaviour of its own: strict ascent splits at the head |
| CronSerializeFacts.DistinctCons | src/components/QuartzCron/utils/model-expression.ts:83-85 | proof helper, no behaviour of its own: distinctness splits at the head |
| CronSerializeFacts.HeadInTail | src/components/QuartzCron/utils/model-expression.ts:83-85 | in a sorted list the head repeats only as the next value |
| CronRoundTrip.RoundTrip | src/components/QuartzCron/utils/model-expression.ts:27-195 | parsing the expression of a serialisable model gives that model, lists sorted, and no errors |
| CronRoundTrip.TokensRoundTrip | src/components/QuartzCron/utils/model-expression.ts:27-172 | each token of a serialisable model parses to its field's model, with no day conflict |
| CronRoundTrip.FieldRoundTrip | src/components/QuartzCron/utils/model-expression.ts:27-172 | a field model the field admits and that serialises parses back from its token |
| CronRoundTrip.FieldsBack | src/components/QuartzCron/utils/expression-model.ts:271-313 | seven tokens parsing to a model's fields give that model and no errors |
| CronRoundTrip.ExpressionTokens | src/components/QuartzCron/utils/model-expression.ts:193-195 | without empty lists the expression is trimmed and splits into the seven tokens in field order |
| CronRoundTrip.ParsedSerialises | src/components/QuartzCron/utils/expression-model.ts:38-233 | every parsed field model serialises with success, except a step whose `from` is below the step minimum |
| CronRoundTrip.StarStepDayOfMonth | src/components/QuartzCron/utils/expression-model.ts:96 | `*/n` on dayOfMonth parses to from 0, which then fails to serialise |
| CronRoundTrip.AdmissibleListValid | src/components/QuartzCron/utils/expression-model.ts:102-118 | a parsed list is sorted, distinct and in range, so it validates again |
| CronRoundTrip.RangeRoundTrip | src/components/QuartzCron/utils/model-expression.ts:43-56 | a range that serialises parses back from `s-e` |
| CronRoundTrip.StepRoundTrip | src/components/QuartzCron/utils/model-expression.ts:58-78 | a step that serialises parses back from `f/s` outside dayOfWeek |
| CronRoundTrip.StepText | src/components/QuartzCron/utils/expression-model.ts:78-100 | `f/s` of texts of in-bound values is the step f, s |
| CronRoundTrip.ListRoundTrip | src/components/QuartzCron/utils/model-expression.ts:80-95 | a list that serialises parses back, sorted |
| CronRoundTrip.ListText | src/components/QuartzCron/utils/expression-model.ts:102-118 | two or more validated values joined by `,` parse back as that list |
| CronRoundTrip.NearestWeekdayRoundTrip | src/components/QuartzCron/utils/model-expression.ts:97-111 | `dW` that serialises parses back |
| CronRoundTrip.LastDayOffsetRoundTrip | src/components/QuartzCron/utils/model-expression.ts:113-127 | `L-o` that serialises parses back |
| CronRoundTrip.LastWeekdayOfMonthRoundTrip | src/components/QuartzCron/utils/model-expression.ts:155-169 | `wL` that serialises parses back |
| CronRoundTrip.NthWeekOfMonthRoundTrip | src/components/QuartzCron/utils/model-expression.ts:129-149 | `w#n` that serialises parses back |
| CronRoundTrip.NthText | src/components/QuartzCron/utils/model-expression.ts:146 | `w#n` splits into the two digit texts |
| CronRoundTrip.NthTextOf | src/components/QuartzCron/utils/model-expression.ts:146 | digit texts around `#` split back, and the token does not end in `L` |
| CronRoundTrip.EveryToken | src/components/QuartzCron/utils/model-expression.ts:39-41 | `*` parses as `every` for every field |
| CronRoundTrip.NumericDispatch | src/components/QuartzCron/utils/expression-model.ts:143-233 | numeric tokens pass the day fields' special forms to the common parser |
| CronRoundTrip.DigitsUntranslated | src/components/QuartzCron/utils/expression-model.ts:28-36 | digit text is unchanged by the name translation |
| CronRoundTrip.ListDispatch | src/components/QuartzCron/utils/expression-model.ts:102 | a token with `,` and neither `-` nor `/` goes to the list branch |
| CronRoundTrip.ListTextsOfDigits | src/components/QuartzCron/utils/expression-model.ts:103 | digit pieces are read as they are |
| CronRoundTrip.TextsLikeNumbers | src/components/QuartzCron/utils/expression-model.ts:105-115 | decimal texts validate and read like the numbers they came from |
| CronRoundTrip.ListValidationLike | src/components/QuartzCron/utils/validate.ts:98-158 | lists whose elements read alike validate alike |
| CronRoundTrip.NatTexts | src/components/QuartzCron/utils/model-expression.ts:92 | the texts of the values, in order |
| CronRoundTrip.JoinedDigitTexts | src/components/QuartzCron/utils/model-expression.ts:92 | digit texts joined by `,` are numeric and split back into the texts |
| CronRoundTrip.LowerBoundsNatural | src/components/QuartzCron/utils/constants.ts:84-100 | every lower bound is a natural number |
| CronRoundTrip.CanonicalGet | src/components/QuartzCron/utils/model-expression.ts:83 | the canonical model sorts each field's list |
| Calendar.DaysInMonth | src/components/QuartzCron/utils/FiledMatcher.ts:10-12 | a month has 28 to 31 days |
| Calendar.MonthLengths | src/components/QuartzCron/utils/FiledMatcher.ts:10-12 | each month starts where the one before ends, and the twelve fill the year |
| Calendar.DayFromNextYear | src/components/QuartzCron/utils/FiledMatcher.ts:10-12 | January 1 of the next year follows the year's days |
| Calendar.NextMonth | src/components/QuartzCron/utils/FiledMatcher.ts:11 | proof helper, no behaviour of its own: the month after is a month 0-11 |
| Calendar.PrevMonth | src/components/QuartzCron/utils/FiledMatcher.ts:11 | proof helper, no behaviour of its own: the month before is a month 0-11 |
| Calendar.NextMonthStart | src/components/QuartzCron/utils/FiledMatcher.ts:11 | the first of the next month is the day after the last of this one |
| Calendar.PrevNext | src/components/QuartzCron/utils/FiledMatcher.ts:11 | the month after the month before is the month itself |
| Calendar.NormDay | src/components/QuartzCron/utils/FiledMatcher.ts:11 | any day of a month rolls over into a valid date |
| Calendar.NormDayNumber | src/components/QuartzCron/utils/FiledMatcher.ts:11 | the rolled-over date is day d - 1 after the first of the month |
| Calendar.MakeDay | src/components/QuartzCron/utils/FiledMatcher.ts:11 | `new Date(y, m, d)` is a valid date for any m and d |
| Calendar.Normalize | src/components/QuartzCron/utils/FiledMatcher.ts:487-497 | any combination of components rolls over into a valid date |
| Calendar.NormalizeInstant | src/components/QuartzCron/utils/FiledMatcher.ts:487-497 | rolling over keeps the instant the components denote |
| Calendar.NormalizeValid | src/components/QuartzCron/utils/FiledMatcher.ts:487-497 | a valid date is its own roll-over |
| Calendar.CarryTime | src/components/QuartzCron/utils/FiledMatcher.ts:447 | carrying seconds into minutes into hours keeps the total |
| Calendar.MonthFirstNext | src/components/QuartzCron/utils/FiledMatcher.ts:11 | each month starts at least 28 days after the one before |
| Calendar.MonthFirstGrows | src/components/QuartzCron/utils/FiledMatcher.ts:11 | later month indexes start later |
| Calendar.DayBeforeLaterMonth | src/components/QuartzCron/utils/FiledMatcher.ts:11 | a day of a month comes before any later month |
| Calendar.DayNumberInjective | src/components/QuartzCron/utils/FiledMatcher.ts:11 | distinct valid dates have distinct day numbers |
| Calendar.DayNumberOrder | src/components/QuartzCron/utils/FiledMatcher.ts:11 | valid dates in calendar order have increasing day numbers |
| Calendar.MonthStartGrows | src/components/QuartzCron/utils/FiledMatcher.ts:11 | month starts grow through the year |
| Calendar.MonthEndBefore | src/components/QuartzCron/utils/FiledMatcher.ts:11 | a day comes before the first of any later month of the year |
| Calendar.YearEndBefore | src/components/QuartzCron/utils/FiledMatcher.ts:11 | a day comes before January 1 of the next year |
| Calendar.YearStartsGrow | src/components/QuartzCron/utils/FiledMatcher.ts:11 | later years start later |
| Calendar.WeekDay | src/components/QuartzCron/utils/FiledMatcher.ts:23 | `getDay()` is 0 (Sunday) to 6 |
| Calendar.WeekDayInMonth | src/components/QuartzCron/utils/FiledMatcher.ts:48 | within a month the weekday advances by one a day |
| DateCursor.UnitIndex | src/components/QuartzCron/utils/FiledMatcher.ts:190 | the position in the unit list holds the unit |
| DateCursor.Set | src/components/QuartzCron/utils/FiledMatcher.ts:194-210 | a setter always leaves a valid date |
| DateCursor.SetMovesInstant | src/components/QuartzCron/utils/FiledMatcher.ts:194-210 | setting the day or a time unit moves the instant by the change times the unit's length, rolling over if need be |
| DateCursor.SetInRange | src/components/QuartzCron/utils/FiledMatcher.ts:194-210 | a value in the unit's range changes that unit alone |
| DateCursor.ValidMonthFirst | src/components/QuartzCron/utils/FiledMatcher.ts:11 | a valid date's day number counts from the first of its month |
| DateCursor.Cursor.constructor | src/components/QuartzCron/utils/time.ts:17 | `new Date(t)` holds a copy of t |
| DateCursor.Cursor.SetUnit | src/components/QuartzCron/utils/FiledMatcher.ts:194-210 | the setter replaces the unit and rolls the date over |
| MatcherRules.LastDayIsMonthLength | src/components/QuartzCron/utils/FiledMatcher.ts:10-12 | `getLastDay` is the Gregorian length of the month, 28-31 |
| MatcherRules.MakeDayInMonth | src/components/QuartzCron/utils/FiledMatcher.ts:22 | `new Date(y, m, d)` of a day in the month is that day |
| MatcherRules.NearestWeekdayFacts | src/components/QuartzCron/utils/FiledMatcher.ts:21-35 | Saturday gives day - 1 or 3 on the 1st, Sunday day + 1 or day - 2 on the last day, other days themselves; for a day of the month the result is a Monday to Friday of the month |
| MatcherRules.NthWeekdayFacts | src/components/QuartzCron/utils/FiledMatcher.ts:45-55 | null iff the weekNth occurrence is past the last day; otherwise the day has Quartz weekday `weekday` and lies in week weekNth, the only such day |
| MatcherRules.NthDay | src/components/QuartzCron/utils/FiledMatcher.ts:46-54 | the computed day has the weekday and lies in the week |
| MatcherRules.NthDayArith | src/components/QuartzCron/utils/FiledMatcher.ts:50-52 | the offset arithmetic lands on the weekday within the week |
| MatcherRules.SameWeekSameWeekday | src/components/QuartzCron/utils/FiledMatcher.ts:52 | two days of one week with one weekday are one day |
| MatcherRules.GetLastWeekdayOfMonth | src/components/QuartzCron/utils/FiledMatcher.ts:64-71 | the backward loop returns the last day with the weekday, or -1 |
| MatcherRules.LastWeekdayFrom | src/components/QuartzCron/utils/FiledMatcher.ts:66-70 | the backward search gives -1 or a day from 1 to d |
| MatcherRules.LastWeekdayFacts | src/components/QuartzCron/utils/FiledMatcher.ts:64-71 | for weekday 1-7 the result has that weekday and d + 7 > last day, so it is never -1 |
| MatcherRules.LastWeekdayTarget | src/components/QuartzCron/utils/FiledMatcher.ts:64-71 | the month's last seven days hold the weekday, and no later day has it |
| MatcherRules.LastWeekdayDown | src/components/QuartzCron/utils/FiledMatcher.ts:66-69 | searching back finds the first day with the weekday |
| MatcherRules.LastWeekdayNone | src/components/QuartzCron/utils/FiledMatcher.ts:66-70 | a search passing no day with the weekday gives -1 |
| MatcherRules.StepMatchesProgression | src/components/QuartzCron/utils/FiledMatcher.ts:125 | with a positive step, a step matches exactly from, from + step, from + 2 step, ... |
| MatcherRules.StepSearch | src/components/QuartzCron/utils/FiledMatcher.ts:158-162 | the loop's value is above the current one and at most max |
| MatcherRules.StepSearchFacts | src/components/QuartzCron/utils/FiledMatcher.ts:158-162 | the loop finds the least progression value above the current one, if it is at most max |
| MatcherRules.StepGap | src/components/QuartzCron/utils/FiledMatcher.ts:158 | two progression values differ by at least a step |
| MatcherRules.StepAdvance | src/components/QuartzCron/utils/FiledMatcher.ts:158 | the progression goes on by a step |
| MatcherRules.FirstAbove | src/components/QuartzCron/utils/FiledMatcher.ts:168-172 | the scan stops at the first value above the current one |
| MatcherRules.CommonNext | src/components/QuartzCron/utils/FiledMatcher.ts:139-177 | the method with the step loop and the list scan returns the specified next value |
| MatcherRules.CommonNextLeast | src/components/QuartzCron/utils/FiledMatcher.ts:139-177 | without a min, the result is the least matching value above the current one, null iff there is none; `*` and step results never exceed max |
| MatcherRules.ListNextLeast | src/components/QuartzCron/utils/FiledMatcher.ts:166-174 | the next list value is the least listed value above the current one |
| MatcherRules.StepNextLeast | src/components/QuartzCron/utils/FiledMatcher.ts:151-165 | the next step value is the least progression value above the current one, at most max |
| MatcherRules.CommonNextWrap | src/components/QuartzCron/utils/FiledMatcher.ts:143-173 | with a min it wraps instead of returning null: `*` and ranges to min, steps to from, lists to their least value |
| MatcherRules.CommonNextAbove | src/components/QuartzCron/utils/FiledMatcher.ts:139-177 | without a min the result is above the current value |
| MatcherRules.FirstAboveLeast | src/components/QuartzCron/utils/FiledMatcher.ts:167-172 | in a sorted list the first value above is the least value above |
| MatcherRules.SortedMono | src/components/QuartzCron/utils/FiledMatcher.ts:167 | proof helper, no behaviour of its own: a sorted list is ordered between any two positions |
| MatcherRules.DayOfMonthMatchMeaning | src/components/QuartzCron/utils/FiledMatcher.ts:285-301 | `L` matches the month's last day, `L-n` the day n before it, `dW` the nearest weekday of d |
| MatcherRules.DayOfWeekMatchMeaning | src/components/QuartzCron/utils/FiledMatcher.ts:303-315 | `w#n` matches the n-th such weekday of the month and `wL` the last one |
| MatcherRules.NthMatchMeaning | src/components/QuartzCron/utils/FiledMatcher.ts:305-308 | a day is the n-th weekday w iff it has weekday w and lies in week n |
| MatcherRules.NthUnique | src/components/QuartzCron/utils/FiledMatcher.ts:305-308 | two days of week n with one weekday are one day |
| MatcherRules.LastWeekdayMatchMeaning | src/components/QuartzCron/utils/FiledMatcher.ts:309-312 | a day is the last weekday w iff it has weekday w and is among the last seven days |
| MatcherRules.LastWeekdayUnique | src/components/QuartzCron/utils/FiledMatcher.ts:309-312 | two of the last seven days with one weekday are one day |
| MatcherRules.SameWeekdayClose | src/components/QuartzCron/utils/FiledMatcher.ts:309-312 | days less than a week apart with one weekday are one day |
| MatcherRules.NextMovesForward | src/components/QuartzCron/utils/FiledMatcher.ts:323-437 | a non-null `next` is larger than the field's value; for the day of week a later day of the same month |
| MatcherRules.WeekdayShift | src/components/QuartzCron/utils/FiledMatcher.ts:396-403 | j days on, the weekday is j places round the week |
| MatcherRules.WeekGapToListed | src/components/QuartzCron/utils/FiledMatcher.ts:396-403 | the weekday gap reaches a listed weekday and passes no listed weekday on the way |
| MatcherRules.GapForward | src/components/QuartzCron/utils/FiledMatcher.ts:401-402 | a later listed weekday is reached by the plain difference |
| MatcherRules.GapWrapped | src/components/QuartzCron/utils/FiledMatcher.ts:401-402 | otherwise the gap wraps round to the least listed weekday |
| MatcherRules.ListedDay | src/components/QuartzCron/utils/FiledMatcher.ts:272-279 | a weekday list matches the day j on iff it lists that day's weekday |
| MatcherRules.WeekdayNextIsFirstMatch | src/components/QuartzCron/utils/FiledMatcher.ts:385-411 | for `*` and weekday lists, `next` is the first later day of the month that matches, null iff there is none |
| MatcherRules.DayRuleNextIsFirstMatch | src/components/QuartzCron/utils/FiledMatcher.ts:359-431 | for the day rules, `next` is the first later day of the month the rule matches, null iff none |
| MatcherRules.GetFirstValidValue | src/components/QuartzCron/utils/FiledMatcher.ts:82-113 | the method returns the field's first valid value in the month |
| MatcherRules.FirstValidValueLeast | src/components/QuartzCron/utils/FiledMatcher.ts:82-113 | a common mode's first valid value matches and is the least that does; `*` starts at the given min |
| FieldMatcher.CronFieldByUnit | src/components/QuartzCron/utils/FiledMatcher.ts:212-217 | the field chosen for a unit moves that unit |
| FieldMatcher.ResetFrom | src/components/QuartzCron/utils/FiledMatcher.ts:459-477 | the resets keep a date valid |
| FieldMatcher.ResetFromStep | src/components/QuartzCron/utils/FiledMatcher.ts:459-477 | one round of the reset loop, then the rest, is the whole reset |
| FieldMatcher.ResetFromClears | src/components/QuartzCron/utils/FiledMatcher.ts:453-478 | `resetBelowDate` sets every lower unit to its minimum and leaves the units above alone |
| FieldMatcher.ClearedNotLater | src/components/QuartzCron/utils/FiledMatcher.ts:453-478 | clearing the lower units keeps a valid date and never moves it forward |
| FieldMatcher.Matcher.constructor | src/components/QuartzCron/utils/FiledMatcher.ts:248 | the matcher holds the shared cursor, the model and the field |
| FieldMatcher.Matcher.Match | src/components/QuartzCron/utils/FiledMatcher.ts:254-321 | `match` answers the field's rule at the cursor's date and does not change the cursor |
| FieldMatcher.Matcher.Next | src/components/QuartzCron/utils/FiledMatcher.ts:323-437 | `next` returns the specified next value and does not change the cursor |
| FieldMatcher.Matcher.ResetSelfDate | src/components/QuartzCron/utils/FiledMatcher.ts:439-448 | the field's unit is set to the field's minimum |
| FieldMatcher.Matcher.ResetBelowDate | src/components/QuartzCron/utils/FiledMatcher.ts:453-478 | the loop sets each lower unit, in turn, to its minimum |
| FieldMatcher.Matcher.ResetUnitAt | src/components/QuartzCron/utils/FiledMatcher.ts:460-476 | one round of the reset loop |
| FieldMatcher.Matcher.AdvanceHigherUnitDate | src/components/QuartzCron/utils/FiledMatcher.ts:487-497 | the unit above the field's is moved on by one, rolling over |
| FieldMatcher.Matcher.SetToNextValidDate | src/components/QuartzCron/utils/FiledMatcher.ts:499-515 | the unit is set to the given value, else to the first valid value; with neither the cursor is unchanged |
| Schedule.GetNextNTimes | src/components/QuartzCron/utils/time.ts:16-61 | the results are the dates of the search from one second after `afterDate`; every one matches every active field; at most n are returned, all n iff the search completes; when the fields progress they increase strictly, all after `afterDate` |
| Schedule.SearchLoop | src/components/QuartzCron/utils/time.ts:24-58 | the outer loop produces the specified run |
| Schedule.OuterRound | src/components/QuartzCron/utils/time.ts:25-57 | one pass takes a matching date and moves one second on, or moves the cursor, or ends the search |
| Schedule.SearchRound | src/components/QuartzCron/utils/time.ts:25-53 | the matchers are consulted in order up to the first mismatch; the cursor moves only on a mismatch |
| Schedule.MoveOnMismatch | src/components/QuartzCron/utils/time.ts:35-47 | after a failed match: the year without a next value ends the search, untouched; otherwise lower units reset, and on null the field reset and the unit above moved on, before the set |
| Schedule.AdvanceSecond | src/components/QuartzCron/utils/time.ts:57 | the cursor moves one second on |
| Schedule.NewMatchers | src/components/QuartzCron/utils/time.ts:21-22 | one matcher per field, in the order year, month, dayOfMonth, dayOfWeek, hours, minutes, seconds, all over the one cursor |
| Schedule.SearchFindsMatches | src/components/QuartzCron/utils/time.ts:25-55 | every date the search records matches every active field |
| Schedule.HitIffMatches | src/components/QuartzCron/utils/time.ts:25-53 | a round records the date exactly when every active field matches it |
| Schedule.SearchCount | src/components/QuartzCron/utils/time.ts:24 | the search returns at most the dates asked for, and all of them exactly when it completes |
| Schedule.SearchIncreasing | src/components/QuartzCron/utils/time.ts:24-58 | when every field's first valid value is not below its minimum, the dates found increase strictly, none before the cursor |
| Schedule.RoundMovesForward | src/components/QuartzCron/utils/time.ts:35-47 | under the same condition a round that moves the cursor moves it strictly forward |
| Schedule.MismatchMovesForward | src/components/QuartzCron/utils/time.ts:35-47 | every mismatch move is strictly forward |
| Schedule.RoundsForward | src/components/QuartzCron/utils/time.ts:24-58 | every round of such a model advances the cursor |
| Schedule.ExploreAscending | src/components/QuartzCron/utils/time.ts:24-58 | a search whose rounds advance finds ascending dates |
| Schedule.ExploreTakesHits | src/components/QuartzCron/utils/time.ts:55 | only dates a round takes are recorded |
| Schedule.AscendingIncreasing | src/components/QuartzCron/utils/time.ts:55-57 | ascending dates are strictly increasing |
| Schedule.AscendingLower | src/components/QuartzCron/utils/time.ts:55-57 | proof helper, no behaviour of its own: a lower bound can be lowered |
| Schedule.NextSecondLater | src/components/QuartzCron/utils/time.ts:57 | the next second is one second later |
| Schedule.HitNext | src/components/QuartzCron/utils/time.ts:55-57 | a round that records the date goes on from the next second |
| Schedule.RoundContinues | src/components/QuartzCron/utils/time.ts:24-58 | a round that does not end the search keeps the run |
| Schedule.HaltEnds | src/components/QuartzCron/utils/time.ts:38-40 | a year without a next value ends the search with the dates found so far |
| Schedule.SearchEnds | src/components/QuartzCron/utils/time.ts:24 | with no dates needed the search is complete |
| Schedule.FirstMismatch | src/components/QuartzCron/utils/time.ts:26-35 | the field reported is active and does not match |
| Schedule.MismatchRound | src/components/QuartzCron/utils/time.ts:35-47 | a mismatch never records the date and leaves a valid cursor |
| Schedule.RoundFrom | src/components/QuartzCron/utils/time.ts:26-53 | a round leaves a valid cursor and never ends the search as complete |
| Schedule.RoundFromMismatch | src/components/QuartzCron/utils/time.ts:26-53 | the round is decided by the first mismatching active field |
| Schedule.NoMismatchFrom | src/components/QuartzCron/utils/time.ts:26-49 | no mismatch means every active field matches |
| Schedule.RoundAt | src/components/QuartzCron/utils/time.ts:25-57 | a round at a valid cursor leaves valid dates |
| Schedule.WrapIsLater | src/components/QuartzCron/utils/time.ts:41-46 | a mismatch without a next value moves past the period of the unit above |
| Schedule.MoveToNextIsLater | src/components/QuartzCron/utils/time.ts:41-46 | a mismatch with a larger next value is later |
| Schedule.LandAfter | src/components/QuartzCron/utils/time.ts:46 | setting the first valid value from a later period start stays later |
| Schedule.LandShape | src/components/QuartzCron/utils/FiledMatcher.ts:499-515 | without a next value the unit gets the first valid value, or nothing changes |
| Schedule.MoveShape | src/components/QuartzCron/utils/time.ts:41-46 | with a next value the move resets the lower units and sets the field's unit |
| Schedule.ResetBelowClears | src/components/QuartzCron/utils/FiledMatcher.ts:453-478 | resetting below leaves the lower units cleared |
| Schedule.ResetSelfClears | src/components/QuartzCron/utils/FiledMatcher.ts:439-478 | resetting below and then the field's own unit clears from that unit down |
| Schedule.NextPeriod | src/components/QuartzCron/utils/FiledMatcher.ts:487-497 | moving the unit above on from a period start reaches the next period, later |
| Schedule.FirstValueFloor | src/components/QuartzCron/utils/FiledMatcher.ts:82-113 | under the progress condition the first valid value is not below the field's minimum |
| Schedule.NearestWeekdayPositive | src/components/QuartzCron/utils/FiledMatcher.ts:21-35 | the nearest weekday of a positive day is positive |
| Schedule.UnitOfField | src/components/QuartzCron/utils/FiledMatcher.ts:499-515 | a larger field value is, less the setter's offset, a larger unit value |
| Schedule.RaiseUnit | src/components/QuartzCron/utils/FiledMatcher.ts:499-515 | setting a larger unit value, lower units reset, is later |
| Schedule.RaiseTimeUnit | src/components/QuartzCron/utils/FiledMatcher.ts:499-515 | the same for the day and the time units |
| Schedule.RaiseMonth | src/components/QuartzCron/utils/FiledMatcher.ts:499-515 | the same for the month |
| Schedule.RaiseYear | src/components/QuartzCron/utils/FiledMatcher.ts:499-515 | the same for the year |
| Schedule.SetFromStart | src/components/QuartzCron/utils/FiledMatcher.ts:499-515 | from a period start, setting at least the minimum is not earlier |
| Schedule.TimeOfDay | src/components/QuartzCron/utils/time.ts:57 | the instant lies within its day |
| DateFormat.FormatReadsBack | src/components/QuartzCron/utils/time.ts:4-14 | the text has the shape `yyyy-MM-DD HH:mm:ss` and reads back as the date, month shown from 1 |
| DateFormat.FormatInjective | src/components/QuartzCron/utils/time.ts:4-14 | two dates with the same text are the same date |
| DateFormat.Pad2Value | src/components/QuartzCron/utils/time.ts:6-10 | the padded part is two digits worth the value modulo 100 |
| DateFormat.Pad2Small | src/components/QuartzCron/utils/time.ts:6-10 | a value below 100 is shown as itself in two digits |
| DateFormat.ReadIntToString | src/components/QuartzCron/utils/time.ts:12 | the year's text reads back as the year |
| DateFormat.Layout | src/components/QuartzCron/utils/time.ts:12 | where each part sits in the text |
| DateFormat.TwoDigits | src/components/QuartzCron/utils/time.ts:6-10 | two digit characters read as their two-digit value |
| Permission.BlankGranted | src/utils/permission.ts:2-9 | an undefined, empty or blank requirement is granted whatever the user holds |
| Permission.SingleAsList | src/utils/permission.ts:6 | a single code is treated as the one-element list |
| Permission.GrantedMeaning | src/utils/permission.ts:11-23 | a non-blank requirement is granted iff the user has some permission and either side holds `*` or they share a code |
| Permission.MoreCodesKeepAccess | src/utils/permission.ts:11-23 | holding more codes never loses access |
| Menu.GenerateDescribes | src/store/modules/menu.ts:9-43 | each entry describes a route with meta, not hidden, permitted or shown disabled, with its name, title and icon; as many entries as such routes; order and one-entry-per-route follow from GenerateAppend and GenerateOne |
| Menu.GenerateAppend | src/store/modules/menu.ts:10-42 | the reduce walks the routes in order: the menus of a concatenation are the menus of each part, in turn |
| Menu.GenerateOne | src/store/modules/menu.ts:10-42 | one route yields exactly one entry, for that route, when it is shown, and none otherwise |
| Menu.GenerateParents | src/store/modules/menu.ts:26-37 | every entry's parents are the chain of entries above it |
| Menu.FilterLeavesNoEmpty | src/store/modules/menu.ts:45-56 | after filtering no branch at any depth is empty |
| Menu.FilterKeepsFull | src/store/modules/menu.ts:45-56 | menus without empty branches pass unchanged |
| Menu.FilterIdempotent | src/store/modules/menu.ts:45-56 | filtering twice is filtering once |
| Menu.FilterKeepsLeaves | src/store/modules/menu.ts:54 | every leaf survives |
| Menu.PreOrder | src/store/modules/menu.ts:58-66 | each entry is followed at once by its descendants' listing |
| Menu.FlatSize | src/store/modules/menu.ts:58-66 | the listing has one place per entry of the forest |
| Menu.FlatAppend | src/store/modules/menu.ts:58-66 | the listing of two lists is the two listings |
| PageCache.IndexOf | src/store/modules/page-cache.ts:15 | the first position holding the item, or -1 exactly when it is absent |
| PageCache.SpliceRemovesFirst | src/store/modules/page-cache.ts:15-18 | `splice(indexOf(x), 1)` takes out the first occurrence |
| PageCache.RemoveAbsent | src/store/modules/page-cache.ts:14-19 | removing an absent item changes nothing |
| PageCache.RemoveOne | src/store/modules/page-cache.ts:15-18 | removing takes out exactly one occurrence and keeps the rest |
| PageCache.RemoveFromDistinct | src/store/modules/page-cache.ts:14-19 | from a duplicate-free list the item is gone and every other entry stays |
| PageCache.SubDistinct | src/store/modules/page-cache.ts:15-18 | removal keeps the list duplicate-free |
| PageCache.SpliceAt | src/store/modules/page-cache.ts:17 | the entries after the cut shift by one |
| PageCache.AppendDistinct | src/store/modules/page-cache.ts:8-12 | appending an absent item keeps the list duplicate-free |
| PageCache.ItemList.constructor | src/store/modules/page-cache.ts:6 | the list starts empty |
| PageCache.ItemList.AddItem | src/store/modules/page-cache.ts:8-12 | appends only an absent item; the list stays duplicate-free and holds the item |
| PageCache.ItemList.RemoveItem | src/store/modules/page-cache.ts:14-19 | removes the item's occurrence, if any; the list stays duplicate-free without it |
| PageCache.PageCacheStore.constructor | src/store/modules/page-cache.ts:24-30 | a page limit of 10 and two empty, separate lists |
| PageCache.PageCacheStore.AddCachedPage | src/store/modules/page-cache.ts:27 | adds to the cached list only |
| PageCache.PageCacheStore.RemoveCachedPage | src/store/modules/page-cache.ts:27 | removes from the cached list only |
| PageCache.PageCacheStore.AddUnCachedPage | src/store/modules/page-cache.ts:29 | adds to the uncached list only |
| PageCache.PageCacheStore.RemoveUnCachedPage | src/store/modules/page-cache.ts:29 | removes from the uncached list only |
| ViewTab.FindIndex | src/store/modules/view-tab.ts:46 | the first tab with the path, or -1 exactly when there is none |
| ViewTab.AppendUnique | src/store/modules/view-tab.ts:40-42 | appending a tab with a new path keeps paths unique |
| ViewTab.RemoveUnique | src/store/modules/view-tab.ts:47-48 | removing a tab keeps paths unique and leaves none with its path |
| ViewTab.RemainingFacts | src/store/modules/view-tab.ts:45-48 | removal takes out exactly the matching tab; an unknown path changes nothing |
| ViewTab.ViewTabStore.constructor | src/store/modules/view-tab.ts:19-21 | no tabs, no active tab, no navigation |
| ViewTab.ViewTabStore.SetActive | src/store/modules/view-tab.ts:23-28 | the tab becomes active; the router is pushed its path unless already there |
| ViewTab.ViewTabStore.AddTab | src/store/modules/view-tab.ts:36-43 | with `isActive` the tab becomes active; it is appended unless a tab has its path, so paths stay unique |
| ViewTab.ViewTabStore.RemoveTab | src/store/modules/view-tab.ts:45-58 | removes exactly the matching tab; removing the active tab activates the last remaining one, or, with none left, pushes `/`; otherwise nothing else changes |
| DragSort.MovedAt | src/hooks/useDragSort.ts:69-70 | what lands at each position: the dragged item at the target, the items between shifted by one |
| DragSort.MovedPermutes | src/hooks/useDragSort.ts:69-70 | the move keeps the length and the multiset |
| DragSort.MovedKeepsOrder | src/hooks/useDragSort.ts:69-70 | the dragged item ends at the target and the others keep their relative order |
| DragSort.MoveBack | src/hooks/useDragSort.ts:69-70 | dragging back restores the list |
| DragSort.MoveItem | src/hooks/useDragSort.ts:69-70 | the two splices move the item in place as specified |
| DragSort.DragSorter.constructor | src/hooks/useDragSort.ts:28-29 | no drag in progress, dragIndex -1 |
| DragSort.DragSorter.HandleDragStart | src/hooks/useDragSort.ts:31-41 | sets dragIndex and isDragging unless the hook refuses |
| DragSort.DragSorter.HandleDragEnter | src/hooks/useDragSort.ts:43-74 | a no-op for the dragged position, a refusal, no drag or an out-of-range target; otherwise moves the item there and follows it |
| DragSort.DragSorter.HandleDragOver | src/hooks/useDragSort.ts:76-88 | changes nothing; the after hook runs unless the target is the dragged position or refused |
| DragSort.DragSorter.HandleDragEnd | src/hooks/useDragSort.ts:90-101 | clears isDragging unless the hook refuses |
| MemoryCache.LiveEntries | src/utils/cache/memory.ts:22-28 | the entries not expired, values unchanged |
| MemoryCache.SetThenLookup | src/utils/cache/memory.ts:43-55 | a value set is found until its expiry, inclusive, and not after |
| MemoryCache.SetLeavesOthers | src/utils/cache/memory.ts:46 | setting one key leaves every other answer alone |
| MemoryCache.LiveEntriesSameAnswers | src/utils/cache/memory.ts:22-41 | dropping expired entries changes no answer |
| MemoryCache.ExpiryMonotone | src/utils/cache/memory.ts:18-20 | a live entry was live before; an expired one stays expired |
| MemoryCache.MemoryStore.constructor | src/utils/cache/memory.ts:14-16 | an empty table; the default expiry is the option's, else 24 hours |
| MemoryCache.MemoryStore.RemoveExpired | src/utils/cache/memory.ts:22-28 | the loop deletes exactly the expired entries |
| MemoryCache.MemoryStore.Get | src/utils/cache/memory.ts:30-41 | undefined when missing; when expired, deletes it and gives undefined; otherwise the data |
| MemoryCache.MemoryStore.Set | src/utils/cache/memory.ts:43-55 | stores the value until now plus the given or default expiry, and returns true |
| MemoryCache.MemoryStore.Delete | src/utils/cache/memory.ts:57-65 | removes only that key and returns true |
| MemoryCache.MemoryStore.Clear | src/utils/cache/memory.ts:67-75 | empties the table and returns true |
| MemoryCache.MemoryStore.Has | src/utils/cache/memory.ts:77-80 | true iff a live entry holds a truthy value; the expired entry is deleted as by `get` |
| Omit.KeepMeaning | src/hooks/useModal/utils.ts:146-153 | the copy holds exactly the properties not listed, values unchanged, and is no longer than the original |
| Omit.KeepAppend | src/hooks/useModal/utils.ts:148-153 | the copy keeps the original order: copying a concatenation copies each part, in turn |
| Omit.NonObjectUnchanged | src/hooks/useModal/utils.ts:138-140 | anything but a plain object comes back unchanged |
| Omit.OtherKeysUnchanged | src/hooks/useModal/utils.ts:142-144 | a keys argument that is neither a key nor an array leaves the object unchanged |
| Omit.SingleAsList | src/hooks/useModal/utils.ts:146 | a single key is the one-element list |
| Omit.NumericKeysOmitNothing | src/hooks/useModal/utils.ts:149 | a numeric key never equals a property name, so it omits nothing |
| Omit.KeepUnlisted | src/hooks/useModal/utils.ts:148-153 | with no name listed the copy equals the original |
| Omit.OmitTwice | src/hooks/useModal/utils.ts:137-154 | omitting the same keys again changes nothing |
| ScrollView.ScrollableAreaInfo | src/components/ScrollView/utils.ts:18-54 | when content is no larger than the container the scrollable size is 0 and the thumb cleared; otherwise it is their difference; the thumb position is 0 |
| ScrollView.ScrollSizeClamps | src/components/ScrollView/utils.ts:63-77 | 0 when nothing is scrollable; otherwise within [0, scrollable], and exactly scrolled + want when that is inside |
| ScrollView.ScrollByNothing | src/components/ScrollView/utils.ts:72-76 | scrolling by nothing from inside the range stays put |
| ScrollView.ClampIdempotent | src/components/ScrollView/utils.ts:72-76 | clamping a clamped result keeps it |
| SrcollView.ScrollSizeClamps | src/components/SrcollView/utils.ts:50-62 | never positive; 0 for a positive input; for canScrollSize >= 0 within [-canScrollSize, 0], inputs in that interval unchanged |
| SrcollView.ClampIdempotent | src/components/SrcollView/utils.ts:50-62 | clamping a clamped offset keeps it |
| SrcollView.Translate.constructor | src/components/SrcollView/utils.ts:10 | the translate ref holds its value |
| SrcollView.CheckCanScroll | src/components/SrcollView/utils.ts:6-42 | scrolls iff the view is larger than the container; then canScrollSize is the difference and the translate kept, else canScrollSize 0 and the translate reset to 0 |
| BuildInfo.SumSizesAppend | scripts/rollup-plugin-build-info/utils.ts:4 | the fold over a concatenation is the sum of the folds |
| BuildInfo.SumSizesFromRight | scripts/rollup-plugin-build-info/utils.ts:4 | folding from the left equals the sum from the right |
| BuildInfo.EmptyBuildSize | scripts/rollup-plugin-build-info/utils.ts:3-5 | no chunks and no assets give size 0 |
| BuildInfo.AddFileSize | scripts/rollup-plugin-build-info/utils.ts:3-5 | one more chunk or asset of size s adds exactly s |
| BuildInfo.BuildResultToJson | scripts/rollup-plugin-build-info/utils.ts:25-31 | the record has exactly the map's keys, each with the same value |

## Left out

- I/O, the clock and time zones: the current time is a parameter (`now`); `Date` is local civil time with no time zone and no daylight saving; `new Date(ms)` parsing is not modelled.
- `Number()` is modelled for decimal digit strings, blank strings (0) and numbers only; signs, decimals, exponents, hexadecimal and `Infinity` texts read as NaN.
- Floating point: `calculateThumbSize` (a division) is left out; the scroll clamps work on integers; `printBuildInfo` (`toFixed`) is left out.
- `YEAR_LIST` (it reads the current year) and the error message table are left out.
- Schedule.GetNextNTimes: the outer loop runs at most `fuel` rounds; running out is reported as its own ending. Termination is not claimed. A year of `every` matches past 2099, a list or range day past the month's end is still returned by `commonNext`, and `L-28`..`L-30` in a short February can cycle.
- Schedule.SearchIncreasing: strict increase is proved only for models that progress: no range, step or list below its field's minimum, `L-n` with n at most 27, and day rules with weekdays 1-7 and positive days or week numbers. Outside these, a first valid value can lie below the field's minimum (`L-30` gives a day of 0 or less in February), and resetting to it can move the cursor back.
- CommonNextWrap (MatcherRules.CommonNextWrap): with a min and an empty list the model gives null, where the code returns `sorted[0]`, which is undefined (FiledMatcher.ts:173). JavaScript's undefined is not modelled as a field value. The parser never builds an empty list: every list it returns is admissible, with at least one value (`CronParseFacts.ParseListSound`, `CronParseFacts.ParseTokenSound`).
- CommonNext (MatcherRules.CommonNext): the same empty-list case gives null instead of undefined.
- GetFirstValidValue (MatcherRules.GetFirstValidValue): an empty list gives null, where the code's `Math.min()` gives Infinity (FiledMatcher.ts:90). Infinity is not modelled.
- Next (FieldMatcher.Matcher.Next): for an empty dayOfWeek list it returns null, where the code computes with undefined and returns NaN (FiledMatcher.ts:400-410).
- SetToNextValidDate (FieldMatcher.Matcher.SetToNextValidDate): with an empty list and no next value the cursor is left as it is. The code writes Infinity or NaN into the date (FiledMatcher.ts:513), which makes it an Invalid Date. Invalid Date is not modelled: the cursor is always a valid date.
- GetNextNTimes (Schedule.GetNextNTimes): for a model holding an empty list, the model goes on searching from a valid date, where the code's cursor would have become an Invalid Date. Models that come from the parser never hold one.
- GetNextNTimes (Schedule.GetNextNTimes): dates have no millisecond field. The code's cursor starts at `afterDate.getTime() + 1000` and keeps `afterDate`'s sub-second part in every result (time.ts:17, 55); the model's dates are whole seconds, and only the setters of the six units are modelled.
- GenerateParents (Menu.GenerateParents): an entry's parents are the route names of the entries above it. The code links the ancestor menu entries themselves (menu.ts:31, 38), objects shared with the tree, so a later change to an ancestor would show through `parents`; that sharing is not captured.
- Schedule.GetNextNTimes: records copies of the cursor's date as values, so later moves cannot change them; aliasing between recorded dates is not modelled further.
- FieldMatcher.Matcher.AdvanceHigherUnitDate: requires a field other than the year; the source would read past the start of the unit list, and the schedule never calls it for the year.
- MatcherRules.CommonNext: requires that its step loop ends (a step of at least 1); with step 0 the source loops forever.
- MatcherRules.NearestWeekdayFacts: the Monday-to-Friday guarantee is stated for days 1 to the month's last day; other days are only computed.
- DragSort.DragSorter.HandleDragStart: requires the index to lie inside the list; the event handlers only pass rendered positions.
- DragSort.DragSorter: the before and after hooks are abstracted to a boolean answer; the hooks' side effects and the DOM event calls are left out.
- ViewTab.ViewTabStore.SetActive: the lookup of the active menu in the menu store is left out; router pushes are recorded as a list of paths.
- Menu: the in-place reassignment of `menu.items` inside `filterEmptyMenus` is modelled as a fresh tree; the aliasing it causes is not captured. The Pinia store wrapper is left out.
- Omit: objects are lists of own enumerable properties; prototypes and symbol keys are left out.
- MemoryCache.MemoryStore: the `try`/`catch` branches that return false cannot occur in the model (map operations never throw), and the async wrappers are modelled as plain calls.
- The Vue layer, the request stack, promises, routing and the build plugin's file system side are not part of this model.
