# Nursery search core in Dafny

This project models the search behind the nursery (保育園) search page. The
search form is decoded into criteria. Each criterion becomes a row
predicate over the facility table. `filter_data` keeps the rows on which
every predicate is true. Around it the model covers the per-row repair of
the vacancy columns done when the table is loaded, the display helpers of
`util.py`, the form's encoded time selections, code tables, validator and
defaults, and the category label→code table of `mapping.py`.

Modules:

- `Wrappers` (wrappers.dfy): `Option` (Python `None`, polars null) and `Result` (exceptions).
- `Text` (text.dfy): the parts of Python's `str` and `int` the source relies on.
  These are literal substring search, `split` on one character, `strip`,
  `int()` on text, and decimal printing with and without zero padding.
- `Table` (table.dfy): times of day, the vacancy columns (raw and loaded) and the facility row.
- `FormFilter` (form_filter.dfy): `to_numbers`, the two code tables, the choice lists,
  `MultiCheckboxAtLeastOne` and the form defaults.
- `Mapping` (mapping.dfy): `nursery_type_to_code`.
- `Util` (util.dfy): `shorten_address` (a method with a loop), `is_enrollable`, the
  time and date formatters, and the vacancy normaliser of `load_hoikuen_csv`.
- `Hoiku` (hoiku.dfy): the predicate builders, `codes_to_names`, the decoding of the
  form and `filter_data`.

A polars predicate is true, false or null on a row. Here it is an
`Option<bool>`, and `&` and `|` follow Kleene logic (`And3`, `Or3`).
`filter` keeps a row only when its predicate is `Some(true)` (`Holds`).
`filter_data` is modelled as the chain of its fourteen `.filter` passes
(`Chain`). The lemma `ChainIsSelect` proves that the chain equals a one-pass
reference selection (`Select`). `Select` is proved to be an order-preserving
subsequence of the input holding exactly the matching rows, each as often
as the input holds it. `MatchesMeaning` spells out "matching" criterion by
criterion.

Points of the code worth knowing, which the model follows:

- The capacity maximum is replaced by 999 when it is at or above the
  breaker (200), whether or not a minimum is given.
- The docstring of `between_num_filter` says "greater than" the breaker;
  the code compares with `>=`.
- Bounds of `0` count as absent, because the code tests Python truthiness.

## Model

| member | source | states |
|---|---|---|
| `Hoiku.And3` | hoiku.py:58 | polars AND keeps a row iff both sides are true; it is false iff either side is false |
| `Hoiku.Or3` | hoiku.py:58-62 | polars OR keeps a row iff either side is true; it is false iff both sides are false |
| `Hoiku.TimeLeMinutes` | hoiku.py:38 | polars' order on times is the order on minutes since midnight |
| `Hoiku.StrContainsChar` | hoiku.py:19-21 | a one-character search holds exactly on non-null cells containing that character |
| `Hoiku.StrContainsAt` | hoiku.py:101 | the literal search holds exactly on non-null cells where the pattern occurs at some index |
| `Hoiku.CondHoliday` | hoiku.py:18-24 | Sunday flag 1: pass iff the weekday text holds "日", whatever the Saturday flag; else Saturday flag 1: pass iff it holds "土"; no flag: every row passes; a null text fails when a flag is set |
| `Hoiku.CondList` | hoiku.py:27-31 | pass iff the cell is non-null and in the list; an empty list passes no row |
| `Hoiku.StartTime` | hoiku.py:34-38 | pass iff the opening time is present and not later than the bound (non-strict); null gives null |
| `Hoiku.EndTime` | hoiku.py:41-45 | pass iff the closing time is present and not earlier than the bound (non-strict); null gives null |
| `Hoiku.EffectiveMax` | hoiku.py:54-55 | a maximum at or above the breaker becomes `num_infinite`, otherwise it is kept |
| `Hoiku.BetweenNumFilter` | hoiku.py:48-64 | never null; a null cell always passes; a present value passes iff it satisfies each truthy bound (0 and `None` are no bound), the maximum taken after the breaker rule |
| `Hoiku.AllAges` | hoiku.py:76-81 | the left-grouped `&` of `col >= 1` holds iff every listed column is present and at least 1 |
| `Hoiku.AgeCodesNameColumns` | hoiku.py:67-81 | the column named by age code k of the form is the vacancy count for age k |
| `Hoiku.AgesZeroAndOne` | hoiku.py:160-163 | with the age boxes "0" and "1" ticked, the age test keeps exactly the rows whose age 0 and age 1 vacancies are both present and at least 1 |
| `Hoiku.VacancyByAge` | hoiku.py:67-81 | no age passes every row; otherwise pass iff every listed age column is present and at least 1 |
| `Hoiku.VacancyMonotone` | hoiku.py:67-81 | adding age columns can only drop rows |
| `Hoiku.VacancyOrderIrrelevant` | hoiku.py:67-81 | the order and repetition of the age columns do not change which rows pass |
| `Hoiku.HasOrNot` | hoiku.py:84-91 | toggle 1: pass iff the column is "あり" or "有り", a null column giving null; any other toggle: every row passes |
| `Hoiku.StrContainFilter` | hoiku.py:94-101 | no text passes every row; otherwise pass iff the column is non-null and the text occurs in it |
| `Hoiku.EmptyTextDropsOnlyNull` | hoiku.py:94-101 | an empty search text drops exactly the rows whose column is null |
| `Hoiku.BoolToInt` | hoiku.py:115-119 | 1 iff true, 0 iff false |
| `Hoiku.TimeToTuple` | hoiku.py:121-124 | (0, 0) for `None`; otherwise the hour and minute, which rebuild the time |
| `Hoiku.CodesToNames` | hoiku.py:126-127 | every output is a label of the table; every known code's label is in it; the result is empty iff no code is known; with all codes known it is their labels in input order |
| `Hoiku.CodesToNamesAppend` | hoiku.py:126-127 | translation works code by code: the translation of a concatenation is the concatenation of the translations |
| `Hoiku.Numbers` | hoiku.py:129-131 | `to_numbers()`: succeeds iff it does, with its numbers; its `ValueError` becomes `NotANumber` of the same piece |
| `Hoiku.PairAt` | hoiku.py:152-158 | reading two indices succeeds iff both are in range, giving those two numbers; otherwise an `IndexError` at the first missing index |
| `Hoiku.MakeTime` | hoiku.py:38 | `pl.time(h, m)` succeeds iff 0 ≤ h < 24 and 0 ≤ m < 60, giving that time |
| `Hoiku.DecodeBounds` | hoiku.py:129-159 | succeeds iff all three fields decode, the start field has at least four numbers and the other two at least two, and the three pairs are valid clock times; the opening bound is then items 2 and 3 of the start field and both closing bounds items 0 and 1 of theirs; otherwise the error is the `ValueError` of the first field that fails to decode, else the `IndexError` at the first missing index (start, end, extended), else the out-of-range pair met first |
| `Hoiku.DecodeCriteria` | hoiku.py:137-185 | succeeds iff the bounds decode; the categories and ages are the selected codes translated by their tables (`None` read as `[]`), so they are labels of those tables and the category list is empty iff no selected code is known; the five amenity boxes become 0/1 toggles; the text filters, day flags and capacity bounds are passed on |
| `Hoiku.Select` | hoiku.py:137-187 | the kept rows form a subsequence of the input: rows are left out, none is changed or reordered |
| `Hoiku.SelectMember` | hoiku.py:137-187 | a row is kept iff it is in the input and passes every predicate |
| `Hoiku.SelectCount` | hoiku.py:137-187 | a kept row occurs as often as in the input; a failing row does not occur |
| `Hoiku.SelectNoneMatching` | hoiku.py:137-187 | when no row passes, the result is empty |
| `Hoiku.FilterPassSelect` | hoiku.py:137-185 | one more `.filter` pass on the selection keeps those rows passing one more predicate |
| `Hoiku.ChainIsSelect` | hoiku.py:137-185 | the chain of `.filter` passes equals the one-pass selection |
| `Hoiku.StrContains` | hoiku.py:101 | `str.contains` on a cell: null on a null cell, else whether the pattern occurs; its meaning is stated by `StrContainsAt` |
| `Hoiku.Pass` | hoiku.py:137-185 | the predicate of the k-th `.filter` call, in source order; spelled out by `MatchesMeaning` |
| `Hoiku.FilterPass` | hoiku.py:137-185 | one `.filter` call; related to the selection by `FilterPassSelect` |
| `Hoiku.Chain` | hoiku.py:137-185 | the first n `.filter` calls one after the other; equal to the selection by `ChainIsSelect` |
| `Hoiku.SelectNone` | hoiku.py:137 | before any pass every row is kept |
| `Hoiku.FilterData` | hoiku.py:104-189 | fails iff decoding the form fails; otherwise returns the one-pass selection of the matching rows |
| `Hoiku.MatchesMeaning` | hoiku.py:137-185 | a row matches iff each of the fourteen criteria holds, stated field by field |
| `Hoiku.EmptyCategoriesMatchNothing` | hoiku.py:147-151 | an empty category selection, or one of unknown codes only, returns no row |
| `Hoiku.BoundsFromSelections` | hoiku.py:152-159 | for encoded selections, the opening bound is the second pair and the closing bounds are the first pairs |
| `Hoiku.DecodeBoundsOfNumbers` | hoiku.py:129-159 | fields decoding to long enough lists (at least four, two and two numbers) with in-range pairs give the bounds (items 2, 3) and (items 0, 1) |
| `Hoiku.DefaultBounds` | hoiku.py:152-159 | on the default form the opening bound is 07:30, the closing bound 18:00 and the extended bound 19:00 |
| `Hoiku.DefaultSelections` | form_filter.py:87-104 | the default selections are the encodings of 07:00/07:30, 18:00/18:30 and 19:00/21:30 |
| `Hoiku.DefaultCapacity` | hoiku.py:180-185 | with the default bounds 0 and 200 the capacity pass keeps exactly the rows with a null capacity or one of at most 999 |
| `Hoiku.BreakerReplacesMax` | hoiku.py:54-55 | a maximum at or above 200 acts as 999 whether or not a minimum is given |
| `Hoiku.ZeroBoundsKeepAll` | hoiku.py:57-64 | bounds 0 and 0 keep every row |
| `Hoiku.CapacityAboveBreakerExample` | hoiku.py:54-58 | bounds 50 and 250 admit a capacity of 300; bounds 50 and 150 do not |
| `Hoiku.SundayWinsExample` | hoiku.py:18-21 | with both flags set, a facility open Monday to Saturday is dropped because the Sunday flag wins; with the Saturday flag alone it passes |
| `Util.Shortened` | util.py:24-29 | the entries removed from the front one after the other, stopping at the first that is not a prefix; characterised by `ShortenedDecomposes` and `ShortenedUnique` |
| `Util.ShortenAddress` | util.py:20-29 | the loop returns the shortened address, a suffix of the input; an empty list leaves it unchanged |
| `Util.ShortenedDecomposes` | util.py:24-29 | the address is the first n entries of the list in order followed by the result, and entry n, if any, is not a prefix of the result |
| `Util.ShortenedUnique` | util.py:24-29 | any count and rest with those properties are exactly the ones the shortener produces |
| `Util.IsEnrollable` | util.py:32-42 | `None` is not enrollable; an integer n is enrollable iff n > 0; a text is enrollable iff `int()` reads a positive number from it; see `EnrollableSignedDigits` |
| `Util.EnrollableSignedDigits` | util.py:38-40 | white space, an optional sign, digits and white space are enrollable iff the sign is not "-" and the digits spell a positive number, so "05", " 3" and "+3" are and "-2" is not |
| `Util.EnrollableText` | util.py:38-40 | a count printed as text is judged like the count |
| `Util.NotEnrollableTexts` | util.py:38-42 | "（なし）", "-" and "1.5" are not enrollable |
| `Util.SplitTwo` | util.py:54 | `a + sep + b` splits back into `a` and `b` when neither holds the separator |
| `Util.FormatJa` | util.py:60-62 | "{hour}時" on the hour, "{hour}時{mm}分" otherwise; its properties are stated by `FormatJaRoundTrip` |
| `Util.FormatJaRoundTrip` | util.py:60-62 | "{hour}時" / "{hour}時{mm}分" determines the time: reading it back gives the time; it holds "時" and no "～" |
| `Util.FormatJaUnique` | util.py:60-62 | the reader accepts only formatted times: a text that reads as a time is exactly that time's "{hour}時" / "{hour}時{mm}分" (no leading zero on the hour, no "00分"), so `ParseJa(r) == Some(t)` pins `r` down |
| `Util.ParseHM` | util.py:52-58 | `map(int, text.split(":"))` into `datetime.time`: a time iff there are exactly two pieces that read as an in-range hour and minute; see `ParseHMOfPieces` and `ReadableTimeText` |
| `Util.ReadableTimeText` | util.py:52-55 | a text that reads as a time holds ":" and no "時", so it never equals a formatted time |
| `Util.TimeToHHMMJa` | util.py:45-62 | `None` gives ""; a time is formatted so that it reads back to that time (by `FormatJaUnique`, this is the one text that does); a text comes back unchanged iff it is not a text of at most five characters that reads as a time; such a text is formatted so that it reads back to that time |
| `Util.ParseHMOfPieces` | util.py:54-55 | two pieces that read as an in-range hour and minute make that time |
| `Util.ReadableTextFormatted` | util.py:51-62 | every text of at most five characters that reads as a time, however spelt, is formatted exactly like that time |
| `Util.DigitsTextAgreesWithTime` | util.py:51-62 | any "digits:digits" text of at most five characters naming an in-range time is formatted like that time |
| `Util.TextAgreesWithTime` | util.py:51-62 | the text "H:MM" is formatted exactly like the time H:MM |
| `Util.PaddedTextAgreesWithTime` | util.py:51-62 | the text "HH:MM" is formatted exactly like the time HH:MM |
| `Util.UnreadableTextUnchanged` | util.py:56-57 | a text that does not read as a time comes back unchanged |
| `Util.HourOutOfRangeUnchanged` | util.py:55-57 | "25:00" comes back unchanged |
| `Util.ThreePiecesUnchanged` | util.py:54-57 | "1:2:3" comes back unchanged |
| `Util.TextFormatted` | util.py:51-62 | "7:05" is formatted as "7時05分" |
| `Util.PaddedTextFormatted` | util.py:51-62 | "07:05" is formatted as "7時05分" too |
| `Util.TimesToHHMMJa` | util.py:65-69 | splitting the result on "～" gives back both formatted times |
| `Util.TimesRoundTrip` | util.py:65-69 | both times of a formatted range are recovered from it |
| `Util.ZeroPadWidth` | util.py:78 | a number below 10^width pads to exactly width digits |
| `Util.DateToMmddJa` | util.py:72-78 | "" iff `None`; otherwise "YYYY年MM月DD日", which reads back to the date and holds no "～" |
| `Util.DatesToMmddJa` | util.py:81-85 | splitting the result on "～" gives back both formatted dates |
| `Util.MapSentinel` | util.py:131-144 | the no-data marker and an empty cell become null; a count stays that count |
| `Util.MapSentinels` | util.py:131-144 | `MapSentinel` applied to each of the eight vacancy columns |
| `Util.NormalizeVacancies` | util.py:130-159 | sentinels mapped, then the 3–5 backfill, then the 4–5 backfill; stated by `BackfillKeeps`, `BackfillIdempotent` and `BackfillExample` |
| `Util.FillNull` | util.py:150 | `fill_null`: a present value is kept, a null takes the aggregate |
| `Util.Backfill35` | util.py:147-153 | ages 0–2 and both aggregates unchanged; each of ages 3–5 kept if present, else set to the 3–5 aggregate |
| `Util.Backfill45` | util.py:154-159 | ages 0–3 and both aggregates unchanged; each of ages 4–5 kept if present, else set to the 4–5 aggregate |
| `Util.Backfill45AfterPresent35` | util.py:147-159 | the 4–5 backfill is a no-op after the 3–5 backfill when the 3–5 aggregate is present |
| `Util.BackfillKeeps` | util.py:147-159 | the combined step never overwrites a present value or touches ages 0–2 or the aggregates; a null age 3 takes the 3–5 aggregate, a null age 4 or 5 the first present aggregate covering it |
| `Util.BackfillIdempotent` | util.py:147-159 | running both backfills twice equals running them once |
| `Util.BackfillExample` | util.py:131-159 | aggregate 5 with age 4 = 2 and ages 3, 5 missing gives 5, 2, 5 |
| `Util.LoadRow` | util.py:114-160 | the vacancy columns are normalised and every other column is kept |
| `Util.LoadTable` | util.py:114-162 | the table is loaded row by row, in order, with the same length |
| `Util.LoadedTableIsStable` | util.py:147-159 | in a loaded table the backfills change nothing further |
| `FormFilter.ParsePieces` | form_filter.py:43-45 | one parse result per piece |
| `FormFilter.Collect` | form_filter.py:43-45 | success iff every piece parses, giving the pieces' values in order; otherwise the first failing piece |
| `FormFilter.ToNumbers` | form_filter.py:39-46 | `None` gives [0, 0, 0, 0]; otherwise it succeeds iff every "/"-separated piece reads as an integer after stripping, and then the numbers are those pieces read in order, one per piece; a failure names the first piece that does not read |
| `FormFilter.Quad` | form_filter.py:85-100 | the encoded value `f"{h1:02d}/{m1:02d}/{h2:02d}/{m2:02d}"`; decoded by `QuadRoundTrip` |
| `FormFilter.Pad2Parses` | form_filter.py:86-103 | a two-digit field holds no "/" and reads back as its number |
| `FormFilter.SplitThree` | form_filter.py:45 | three "/"-free pieces joined with "/" split back into those pieces |
| `FormFilter.SplitFour` | form_filter.py:45 | four "/"-free pieces joined with "/" split back into those pieces |
| `FormFilter.CollectAllSome` | form_filter.py:43-45 | when every piece parsed, the numbers are exactly the parsed values |
| `FormFilter.CollectAllParsed` | form_filter.py:43-45 | pieces that all read as integers decode to exactly those integers |
| `FormFilter.CollectFour` | form_filter.py:43-45 | four readable pieces decode to their four values |
| `FormFilter.ToNumbersOfFour` | form_filter.py:39-46 | four readable "/"-free pieces joined with "/" decode to their four values |
| `FormFilter.QuadRoundTrip` | form_filter.py:39-46 | every encoded "hh/mm/hh/mm" value decodes to its four numbers |
| `FormFilter.StartValueDecodes` | form_filter.py:84-89 | an opening-time value "07/00/07/mm" decodes to 7, 0, 7, mm |
| `FormFilter.EndValueDecodes` | form_filter.py:90-95 | a closing-time value "18/mm/18/30" decodes to 18, mm, 18, 30 |
| `FormFilter.ExtendedValueDecodes` | form_filter.py:96-106 | an extended value "hh/mm/21/30" decodes to hh, mm, 21, 30 |
| `FormFilter.StartTimeChoices` | form_filter.py:84-89 | the options "07/00/07/mm" shown as "07:00 ～ 07:mm" for mm in 0, 15, 30; decoded by `StartTimeChoicesRoundTrip` |
| `FormFilter.EndTimeChoices` | form_filter.py:90-95 | the options "18/mm/18/30" shown as "18:mm ～ 18:30" for mm in 0, 15, 30; decoded by `EndTimeChoicesRoundTrip` |
| `FormFilter.ExtendedEndPairs` | form_filter.py:100-103 | `product(range(19, 22), range(0, 60, 15))` without its last pair |
| `FormFilter.ExtendedEndTimeChoices` | form_filter.py:96-106 | the options "hh/mm/21/30" shown as "hh:mm ～ 21:30" over those pairs; decoded by `ExtendedEndTimeChoicesRoundTrip` |
| `FormFilter.StartTimeChoicesRoundTrip` | form_filter.py:84-89 | three opening-time options, each decoding to 7, 0, 7, 15·i |
| `FormFilter.EndTimeChoicesRoundTrip` | form_filter.py:90-95 | three closing-time options, each decoding to 18, 15·i, 18, 30 |
| `FormFilter.ExtendedEndTimeChoicesRoundTrip` | form_filter.py:96-106 | eleven extended options from 19:00 in 15-minute steps up to 21:30 (21:45 excluded), each decoding to its hour and minute and then 21, 30 |
| `FormFilter.AgeAvailability` | form_filter.py:49-57 | exactly the codes "0".."5", with pairwise distinct labels; see `AgeLabels` |
| `FormFilter.AgeLabels` | form_filter.py:49-57 | code k names the column "k歳児" |
| `FormFilter.NurseryType` | form_filter.py:60-68 | exactly the codes "1".."6", with pairwise distinct labels |
| `FormFilter.NewAtLeastOne` | form_filter.py:23-27 | a missing or empty message becomes "At least one option must be selected.", any other message is kept |
| `FormFilter.ValidateAtLeastOne` | form_filter.py:29-31 | stops validation iff the field holds an empty selection, with the validator's message; passes iff it holds a non-empty one; a field holding `None` raises `TypeError` from `len` |
| `FormFilter.DefaultForm` | form_filter.py:70-119 | the form's default values; stated by `DefaultFormIsValid`, `DefaultTimesAreChoices` and `Hoiku.DefaultBounds` |
| `FormFilter.DefaultFormIsValid` | form_filter.py:74-119 | the categories default to all six codes, ages to none, and the capacity bounds to 0 and 200, both inside 0..999 |
| `FormFilter.DefaultTimesAreChoices` | form_filter.py:84-106 | each time default is one of its field's options: the third opening option, the first closing option, the first extended option |
| `Mapping.NurseryTypeToCode` | mapping.py:67-75 | the result is one of "0".."6"; it is "0" iff the label is not in the table; a known label gives its table code |
| `Mapping.KnownLabels` | mapping.py:68-74 | each of the six labels maps to its code "1".."6" |
| `Mapping.UnknownLabel` | mapping.py:75 | any string that is not a label of the form's table maps to "0" |
| `Mapping.RoundTripWithFormTable` | mapping.py:67-75 | every code of the form's category table survives the trip to its label and back |
| `Mapping.RoundTripFromLabel` | mapping.py:67-75 | every label of the table survives the trip to its code and back |
| `Text.ContainsChar` | hoiku.py:19-21 | a one-character search finds exactly the strings holding the character |
| `Text.ContainsAt` | hoiku.py:101 | the literal search holds iff the pattern occurs at some index |
| `Text.ContainsEmpty` | hoiku.py:101 | every string contains the empty string |
| `Text.Split` | form_filter.py:45 | one piece more than there are separators, no piece holds the separator, and joining the pieces gives the text back |
| `Text.SplitJoin` | form_filter.py:45 | split is the inverse of join on separator-free pieces |
| `Text.Strip` | form_filter.py:45 | `str.strip()`; see `StripKeeps` and `StripEnds` |
| `Text.StripKeeps` | form_filter.py:45 | stripping removes only white space: every other character stays |
| `Text.LeadingSpaces` | form_filter.py:45 | the number of characters stripped at the front: all white space, and the rest is what remains |
| `Text.KeptLength` | form_filter.py:45 | the number of characters kept before the white space stripped at the end |
| `Text.StripIsInfix` | form_filter.py:45 | the stripped text is a slice of the text with only white space before and after it |
| `Text.StripSpaces` | form_filter.py:45 | white space around a text that neither starts nor ends with white space is exactly what stripping removes |
| `Text.StripEnds` | form_filter.py:45 | the stripped text neither starts nor ends with white space |
| `Text.ParseInt` | form_filter.py:45 | `int()` on a text; see `ParseIntToString` and `ParseIntExcludes` |
| `Text.ParseIntAccepts` | util.py:39 | `int()` reads white space, an optional "+" or "-", digits and white space as the signed value of the digits |
| `Text.DigitsValueNonNegative` | util.py:39 | digits spell a number that is not negative |
| `Text.ParseIntExcludes` | util.py:54 | a text `int()` accepts holds only white space, a sign and digits |
| `Text.ParseIntToString` | util.py:39 | `int(f"{n}") == n` |
| `Text.NatToString` | util.py:61-62 | `f"{n}"` is a digit string whose value is n; it has one digit iff n < 10 |
| `Text.ZeroPad` | util.py:62 | the zero-padded number is a digit string with value n and length max(width, digits of n) |
| `Text.Pad2` | form_filter.py:86 | `f"{n:02d}"` has two characters for n < 100 |
| `Text.Pad2Value` | util.py:62 | `f"{m:02d}"` for m < 100 is two digits that spell m |
| `Text.TwoDigitsArePad2` | util.py:62 | two digits are the zero-padded form of the number they spell, so a two-digit minute field determines its text |
| `Text.Pad2OneDigit` | form_filter.py:86 | a one-digit number pads with one leading zero |
| `Text.Pad2TwoDigits` | form_filter.py:86 | a two-digit number prints as its two digits |
| `Table.TimeLe` | hoiku.py:38-45 | polars' order on times; equal to the order on minutes by `Hoiku.TimeLeMinutes` |
| `Text.Pad2Literals` | form_filter.py:86-103 | the two-digit fields of the options and defaults print as "00", "05", "07", "15", "18", "19", "21", "30" |

## Left out

- Reading the CSV file, lazy and streaming evaluation (`scan_csv`, `collect(streaming=True)`) and the materialised `DataFrame`: the table is a sequence of rows given as a parameter.
- `str.to_time("%H:%M")` on the three time columns (util.py:124-128): rows hold parsed times or null.
- The text→Float64→Int64 cast of the vacancy columns: a raw cell is already blank, the no-data marker, or an integer (aggregates already truncated).
- The regular-expression semantics of `str.contains`: the search is literal, which agrees for texts without regex metacharacters.
- `vacancy_by_age` builds its expression as text and `eval`s it: modelled as the left-grouped fold it evaluates to.
- `Hoiku.AgeColumn`: a column name outside "0歳児".."5歳児" would be a polars column error; the model reads it as null, and `DecodeCriteria` proves that only the six table labels reach it.
- `Hoiku.MakeTime`: polars' behaviour for `pl.time` with an out-of-range hour or minute is modelled as an error; its timing relative to the index errors (plan building versus collection) is not modelled beyond "indices first".
- `Text.ParseInt`: Python's `int()` also accepts underscores between digits and non-ASCII decimal digits; the model accepts ASCII digits with an optional sign and surrounding white space only.
- `Util.DateToMmddJa`: `%Y` is modelled as four zero-padded digits; platforms that print years below 1000 unpadded are not modelled.
- The three `print` calls of `filter_data` and `to_numbers` (hoiku.py:133-135, form_filter.py:42): output only.
- `FilterForm.to_dict`, Flask request handling, WTForms field processing, CSRF and templates: framework plumbing. The validators are never run by `filter_data`, so the decoder does not check ranges.
- The map and GeoJSON building of mapping.py and views_hoikuen.py: presentation and floating point.
- `to_url` (depends on the live request), `create_google_map_url` (float formatting) and the `xx58_*` hash helpers (xxHash and Base58 libraries): foreign calls.
- Seconds and microseconds of times: the source only uses hours and minutes.
