# get-3gpp-spec: a verified model of its parsing and listing core

get-3gpp-spec finds and downloads 3GPP specification archives. This
project models the library in Dafny: the parsers of its command-line
arguments, the reading of a version from an archive file name, and the
column lookup and row loop that turn a listing page into spec items.

- **Spec numbers** (`spec_number.dfy`). `parse_spec_number` accepts two
  digits, an optional '.', and then a non-empty alphanumeric tail.
  `Display` writes `series.number`. The parser accepts exactly the
  well-formed spec numbers in either written form, and displaying a parsed
  number then parsing it again gives the same value.
- **Months and date filters** (`dates.dfy`). `Month::try_from` maps 1..=12
  to a month and rejects every other `u8`. `DateFilter::from_str` has three
  outcomes: the malformed-date error, the month-range error, or the parsed
  year and month. Every `YYYY-MM` string written from a filter parses back
  to that filter.
- **Versions** (`versions.dfy`). `parse_version` works in steps:
  - take `file_stem` of the file name;
  - take the segment after its last '-';
  - strip every trailing ".zip";
  - decode the token. Three characters are three base-36 digits, in either
    case. Six characters are three two-character groups read by
    `u32::from_str`. Any other length gives no version.

  Every version written in either form is read back from its archive name.
  For any base b greater than every component, the derived `Ord` on
  `Version` is the numeric order of `(major·b + minor)·b + editorial`.
- **Header columns** (`headers.dfy`). `find_header_indexes` scans the header
  texts once. It finds the first cell whose lower-cased text contains
  "name", and independently the first that contains "date". It fails
  exactly when either word is absent.
- **Listing** (`listing.dfy`, with the generic `selections.dfy`). `list`
  runs the security check on the joined URL, then the column lookup, then
  the row loop. That loop skips rows by its `continue`s. The `todo!()` at
  src/lib.rs:258 panics on the first row that survives them, so the model
  has an explicit `Aborted` outcome: `Ok` comes back only when no row
  survives, and then it is empty. The date filter and the push after the
  `todo!()` are modelled separately as `IntendedSelection`, and labelled as
  not reachable in the code as written.

The doc comment of `list` (src/lib.rs:174-176) calls it a placeholder that
returns an empty list. The code as written returns an empty list only when
no row survives the `continue`s; on the first row that does, it panics at
the `todo!()`. The model follows the code: `List` and `FilterRows` return
`Aborted` there. What the code after the `todo!()` would do (filter by date,
then push the row's item) is `IntendedSelection`, and
`Listing.SingleMatchingRow` states both outcomes for one matching row side
by side.

## Model

| member | source | states |
|---|---|---|
| SpecNumbers.ParseSpecNumber | src/lib.rs:32-52 | An accepted spec number has a two-digit series and a non-empty alphanumeric number. The input is either series+number or its `Display` form. A rejected input is reported with the input itself. |
| SpecNumbers.MatchesSpecNumber | src/lib.rs:33 | The pattern `^\d{2}\.?[A-Za-z0-9]+$`: two digits, at most one '.', then one or more ASCII letters or digits, and nothing else. |
| SpecNumbers.Display | src/lib.rs:15-19 | `Display` writes the series, a '.', then the number. |
| SpecNumbers.ParseAcceptsWellFormed | src/lib.rs:32-52 | Every well-formed spec number is accepted, written with or without the dot, and parses to itself. |
| SpecNumbers.ParseOkIff | src/lib.rs:32-52 | Parsing succeeds exactly on the two written forms of some well-formed spec number. |
| SpecNumbers.DisplayRoundTrip | src/lib.rs:15-19 | Parsing the `Display` form of a parsed spec number gives that spec number back. |
| SpecNumbers.ValidExamples | src/lib.rs:301-337 | "23a", "23.a", "00Z", "99.1" and "45B6" parse to the series and numbers the test expects. |
| SpecNumbers.InvalidExamples | src/lib.rs:340-347 | "2a", ".23a", "ab23", "23." and "" are rejected. |
| Ascii.ParseUnsigned | src/lib.rs:127-138 | `uN::from_str`: the value is below the type's bound. Success means the input is either all digits or '+' followed by digits, with that value. Every such input whose value fits is accepted. |
| Ascii.ToLower | src/lib.rs:281 | `to_lowercase` on one character, for ASCII: an upper-case letter becomes its lower-case letter, and every other character is kept. |
| Ascii.Lower | src/lib.rs:281 | `to_lowercase` on a text: `ToLower` applied to every character, in order. |
| Ascii.Contains | src/lib.rs:282-287 | `str::contains` with a string pattern: the pattern is a prefix of the text or of one of its suffixes. `ContainsIff` proves this means an occurrence at some index. |
| Ascii.ContainsIff | src/lib.rs:282-287 | `str::contains` holds exactly when the word occurs at some position of the text. |
| Dates.MonthNumber | src/lib.rs:57-70 | Every month's discriminant lies in 1..=12. |
| Dates.MonthTryFrom | src/lib.rs:95-115 | Succeeds exactly for 1..=12, with the month whose discriminant is the value. Every other value is the invalid-month error carrying that value. |
| Dates.MonthTryFromNumber | src/lib.rs:95-115 | Converting a month's discriminant back gives the same month. |
| Dates.DateShaped | src/lib.rs:123 | The pattern `^(\d{4})-(\d{2})$`: four digits, '-', two digits, and nothing else. |
| Dates.ParseDateFilter | src/lib.rs:121-141 | Text not of the form dddd-dd is the invalid-date error. A well-formed text whose month is outside 1..=12 is the invalid-month error with that number. Otherwise the result has the decimal year and the month with that number. |
| Dates.DateFilterRoundTrip | src/lib.rs:121-141 | Every filter with a four-digit year, written as zero-padded `YYYY-MM`, parses back to itself. |
| Dates.ExampleJuly2023 | src/lib.rs:121-141 | "2023-07" is July 2023. |
| Dates.ExampleMonth13 | src/lib.rs:133-139 | "2023-13" is the month-range error for 13. |
| Dates.ExampleShortYear | src/lib.rs:124-126 | "23-07" is the malformed-date error. |
| Versions.CompareIsAntisymmetric | src/lib.rs:80-85 | The derived order is `Equal` exactly on equal versions, and swapping the operands turns `Less` into `Greater`. |
| Versions.BelowIsTransitive | src/lib.rs:80-85 | The derived order is transitive. |
| Versions.HighDigitFirst | src/lib.rs:80-85 | Two-digit numbers in any base compare by the high digit first, then the low digit. |
| Versions.BelowIsKeyOrder | src/lib.rs:80-85 | For components below a base b, major/minor/editorial comparison agrees with comparing `(major·b + minor)·b + editorial`. |
| Versions.Compare | src/lib.rs:80-85 | `derive(Ord)` on `Version`: the majors decide, then the minors, then the editorials. |
| Versions.LastSegment | src/lib.rs:146-147 | `split(sep).last()`: the text after the last `sep`, or the whole text when it has none. It is never longer than the text. |
| Versions.FileName | src/lib.rs:145 | `Path::file_name` on a Unix path: the last component, skipping empty and "." components. It is none when that component is ".." or there is none. |
| Versions.Stem | src/lib.rs:145 | `file_stem`: the file name without what follows its last '.'. A name with no '.', or with nothing before its only leading '.', is kept whole. |
| Versions.TrimZip | src/lib.rs:147 | `trim_end_matches(".zip")`: a prefix of the text that no longer ends in ".zip". `TrimZipRemovesZipRun` proves that what it removes is whole copies of ".zip". |
| Versions.TrimZipRemovesZipRun | src/lib.rs:147 | What `trim_end_matches(".zip")` removes from the end of the text is nothing but whole copies of ".zip". With the result no longer ending in ".zip", this pins the result down. |
| Versions.VersionToken | src/lib.rs:145-147 | The token of a file name: the file name's stem, its segment after the last '-', then every trailing ".zip" removed. There is none when the path has no file name. |
| Versions.LastSegmentShape | src/lib.rs:146-147 | `split(sep).last()` is a suffix free of `sep`. It is the whole text unless a `sep` precedes it. |
| Versions.LastSegmentAfterSeparator | src/lib.rs:146-147 | What follows a separator that the tail does not contain is exactly the tail. |
| Versions.Base36Digit | src/lib.rs:151-158 | `to_digit` gives a digit exactly for ASCII letters and digits. |
| Versions.Base36DigitIsCaseInsensitive | src/lib.rs:151-158 | `to_digit` inverts the lower-case base-36 digit for every value below 36, and reads each letter as its lower-case form. |
| Versions.GroupValue | src/lib.rs:165-168 | The value of an accepted two-character group, with its '+' dropped, is below 100, and is the decimal value when both characters are digits. |
| Versions.ParseGroup | src/lib.rs:165-168 | `u32::from_str` on a two-character group succeeds exactly when it is two digits or '+' and a digit, with the group's value. |
| Versions.DecodeToken | src/lib.rs:148-171 | Only tokens of length 3 or 6 give versions. A 3-token gives a version exactly when it is alphanumeric, with each component the base-36 value of its character in either case. A 6-token gives a version exactly when each of its three two-character groups is two digits or '+' and a digit, and each component is that group's value with the sign dropped, so below 100. |
| Versions.ParseVersion | src/lib.rs:144-172 | `parse_version`: the token of the file name, decoded. Every component of a version it returns is below 100. |
| Versions.NonAsciiTokenIsNoVersion | src/lib.rs:148-171 | A token holding a non-ASCII character gives no version, as in `parse_version`, which measures the token in bytes. |
| Versions.FileNameOfPlainName | src/lib.rs:145 | A name without '/' that is longer than ".." is its own file name. |
| Versions.ArchiveNameToken | src/lib.rs:145-147 | For `prefix-token.zip`, the token is recovered intact. The prefix may hold '-' and '.'. |
| Versions.CompactRoundTrip | src/lib.rs:144-172 | Every version with base-36 components is parsed back from `prefix-<3 chars>.zip`. |
| Versions.PaddedRoundTrip | src/lib.rs:144-172 | Every version with components below 100 is parsed back from `prefix-<6 digits>.zip`. |
| Versions.OtherLengthsAreNoVersion | src/lib.rs:148-171 | An alphanumeric token of any length other than 3 or 6 gives no version. |
| Versions.RepeatedZipSuffix | src/lib.rs:147 | `trim_end_matches` removes every trailing ".zip", so `…-token.zip.zip` yields the same token. |
| Versions.CompactTokenIgnoresCase | src/lib.rs:151-158 | A 3-character token decodes the same as its lower-case form. |
| Versions.SignedGroups | src/lib.rs:164-168 | Each two-character group accepts a leading '+', as `u32::from_str` does. |
| Versions.DecodeTokenExamples | src/lib.rs:148-171 | "h10" and "H10" are 17.1.0, "050100" is 5.1.0, and "h1" and "h100" give no version. |
| Headers.HasWord | src/lib.rs:281-282 | A header matches a word when its lower-cased text contains that word. |
| Headers.FirstIndex | src/lib.rs:280-287 | The index found is the least header whose lower-cased text contains the word. None means no header contains it. |
| Headers.HeaderIndexes | src/lib.rs:273-294 | Ok exactly when some header contains "name" and some header contains "date". The pair is the least index of each, and may be equal. Otherwise the result is `HeaderNotFound`. |
| Headers.FindHeaderIndexes | src/lib.rs:277-293 | The imperative scan returns exactly `HeaderIndexes` of the header texts. |
| Headers.ColumnsTwoAndThree | src/lib.rs:273-294 | If the first "name" header is column 2 and the first "date" header column 3, the result is (2, 3). |
| Headers.UnitTestHeaders | src/lib.rs:350-368 | The test's header row, with its real cell texts (whitespace around the checkbox, a non-breaking space, then "sort by name/desc", "sort by date/desc" and "sort by size/desc" with their non-breaking-space padding), gives (2, 3). |
| Selections.MapOfConcat | src/lib.rs:220 | Visiting two runs of rows gives each run's results, one after the other. |
| Selections.FirstSome | src/lib.rs:220-258 | The first row that reaches the end of the loop body: none exactly when there is no such row. Otherwise it is the least such index. |
| Selections.Somes | src/lib.rs:220-266 | The collected items are no more than the rows. They are empty exactly when no row contributes. |
| Selections.SomesOfConcat | src/lib.rs:220-266 | Collecting over two runs gives each run's collection, one after the other. |
| Selections.SomesStartAtFirstSome | src/lib.rs:220-266 | The first item collected is the item of the first contributing row. |
| Selections.SomesComeFromXs | src/lib.rs:220-266 | Every collected item is the item of some row. |
| Listing.StartsWith | src/lib.rs:189 | `starts_with`: the prefix is no longer than the text and equals the text's first characters. |
| Listing.ListingPath | src/lib.rs:184 | The relative path `{series}_series/{series}.{number}`. |
| Listing.ListingPathIsPlain | src/lib.rs:184 | For a well-formed spec number, the path built is a plain relative path: it starts with a letter or digit, holds only letters, digits, '_', '.' and '/', and every '.' sits between two letters or digits. So it has no scheme, no leading '/', and no "." or ".." segment. |
| Listing.AsI32 | src/lib.rs:260 | `as i32` on a `u32` gives a value in the i32 range that equals the input modulo 2^32. |
| Listing.DateMatches | src/lib.rs:259-263 | The date filter's test: the row's year equals the filter's year after the `as i32` cast, and the months are equal. |
| Listing.ParsedFilterYearIsExact | src/lib.rs:259-263 | A filter parsed from text has a four-digit year, so the `as i32` cast changes nothing. The date test is then plain year and month equality. |
| Listing.Survives | src/lib.rs:222-256 | A row that none of the `continue`s skips: it has both columns, a link in the name column, a parsable date in the date column, a file name with a version, and the requested major release, if any. |
| Listing.Selected | src/lib.rs:224-263 | A row the loop would keep: it survives every `continue`, and when there is a date filter, its date matches it. |
| Listing.ItemOf | src/lib.rs:265 | The `SpecItem` of a surviving row: the version of its file name, its parsed date, and its link's `href` as the URL. |
| Listing.Candidates | src/lib.rs:220-266 | One candidate per row, in document order. Each is that row's item if the row is kept, and none otherwise. |
| Listing.CandidatesOfConcat | src/lib.rs:220-266 | The candidates of two runs of rows are those of each run, one after the other. |
| Listing.RowsOutcome | src/lib.rs:220-268 | The loop as written never lists an item. It returns Ok (empty) exactly when no row survives the skips. Otherwise it panics at the least surviving row. |
| Listing.FilterRows | src/lib.rs:220-268 | The imperative row loop, with its `continue`s and the `todo!()`, ends exactly in `RowsOutcome`. |
| Listing.List | src/lib.rs:184-268 | A URL outside `BASE_URL` is the security error. Missing columns give the column error. Otherwise the result is the row loop's outcome for the columns found. |
| Listing.IntendedSelection | src/lib.rs:259-266 | Intended, not reachable as written: at most one item per row, empty exactly when no row passes every filter, including the date filter. |
| Listing.IntendedItemsMatchFilters | src/lib.rs:252-265 | Every intended item comes from a kept row, has the requested major release, and under a date filter has its year (after the cast) and month. |
| Listing.IntendedSelectionOfConcat | src/lib.rs:220-266 | The intended selection of two runs of rows is each run's selection, one after the other. |
| Listing.SingleMatchingRow | src/lib.rs:220-266 | A single row that passes every filter is listed as exactly its item: its link's URL, its date and its file name's version. The loop as written panics at that row. |
| Listing.MalformedDateIsSkipped | src/lib.rs:239-245 | A row whose date does not parse is left out, without an error, wherever it stands. |
| Listing.AsWrittenAbortsAtFirstIntendedItem | src/lib.rs:220-268 | Without a date filter, the loop as written returns Ok exactly when the intended list is empty. Otherwise it panics at the row whose item the intended list starts with. |

## Left out

- The HTTP fetch, the status check and reading the body are not modelled: they are I/O.
- `Url::parse` and `Url::join` are external. `List` takes the joined URL as input, and `ListingPath` models the path that is joined.
- HTML parsing and the CSS selectors are not modelled. Header texts arrive as strings. Each row arrives as its cells' first `a[href]` anchor (its `href` and its text) and the timestamp its trimmed text parses to.
- chrono's `parse_from_str(.., "%Y/%m/%d %-H:%M")` is an external parser. Each cell carries its result.
- The regular-expression engine is not modelled. The two patterns are written as character-class predicates.
- Error messages are not modelled: errors are constructors that carry the input they name. The internal regex and selector errors cannot occur with the fixed patterns.
- The command-line front end (`main.rs`) is not part of this model.
- SpecNumbers.ParseSpecNumber: requires ASCII input. Rust's `\d` also matches non-ASCII decimal digits, and `&spec[0..2]` (src/lib.rs:42) slices by byte. So the program panics on "०१a" (digits of three bytes each), because byte 2 is not a character boundary. On "٢٣a" (digits of two bytes each) it returns the one-character series "٢". Neither behaviour is modelled.
- Dates.ParseDateFilter: requires ASCII input. On non-ASCII decimal digits the regex matches, and the program returns the year-parse or month-parse error (src/lib.rs:128-138), not the malformed-date error. This path is not modelled.
- Ascii.Lower folds ASCII letters only, where Rust's `to_lowercase` folds all of Unicode. For the words "name" and "date" this makes no difference. The only non-ASCII characters whose lower case contains an ASCII letter are U+0130 ('i' and a combining dot) and U+212A ('k'), and neither letter occurs in those words.
- Listing.ListingPathIsPlain: proves that the joined path is plain. It does not prove that `Url::join` then appends it to `BASE_URL`, because `Url::join` is not modelled.
- Versions.FileName: models Unix `Path` semantics only, with '/' as the separator.
- Versions.DecodeTokenExamples: full file names such as "23501-h10.zip" are covered by the general round-trip lemmas rather than by literal examples.
- The `date` kept in a `SpecItem` is chrono's naive timestamp read as UTC: time zones are not modelled.
