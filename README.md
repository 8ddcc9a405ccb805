# clean_csv in Dafny

A model of the cleaning core of `src/clean_csv.py`, a script that reads a
CSV file of customer records and writes a cleaned copy. Each record has
five cleaned columns:

- `name`: trimmed, split on runs of whitespace, each word capitalized,
  then rejoined with single spaces;
- `email`: trimmed and lower-cased;
- `age`: kept only when it is a run of decimal digits, otherwise emptied;
- `country`: trimmed;
- `signup_date`: read with the first of four accepted formats that parses
  it into a real calendar date, then written as `YYYY-MM-DD`, or emptied.

The project has six modules:

- `Wrappers` (`wrappers.dfy`) holds the `Option` type the parser and the
  row pipeline share.
- `Text` (`text.dfy`) holds the Python string operations the cleaners use
  (`strip`, `split`, `" ".join`, `lower`, `capitalize`, `isdigit`) on
  ASCII text, with their laws.
- `Normalizers` (`normalizers.dfy`) has `clean_name`, `clean_email` and
  `clean_age`, as pure functions.
- `Dates` (`dates.dfy`) has `DATE_FORMATS`, the calendar check of
  `datetime`, and the part of `datetime.strptime` these formats use.
  `strptime` compiles the format to a regular expression and matches it
  with backtracking. It also has `strftime("%Y-%m-%d")`, and
  `normalize_date` two ways: as a recursive function and as a method with
  the script's loop over the formats.
- `Rows` (`rows.dfy`) has the cleaned-record dictionary, including the
  `KeyError` for a missing column. It also has the writer's layout of a
  record along the header, and the loop of `process_csv` as a method that
  appends one output line per record.
- `Examples` (`examples.dfy`) holds worked inputs, derived from the
  general lemmas.

The strongest results:

- **Date round trip.** Every text that writes a year in four digits and
  a month and a day in two digits each (`00` to `99`), in any of the four
  formats, normalizes to its own ISO text when it names a real date, and
  to "" when it does not. This includes months `00` and `13` to `99`, and
  days `00` and `32` to `99`, which the `%m` and `%d` patterns refuse. The
  day-first formats are never read month first, and a later format never
  rescues an impossible date.
- **First match.** The first format that parses decides, in both
  directions.
- **Idempotence.** All five cleaners, and the whole cleaned record, are
  idempotent.
- **Names.** A cleaned name is single-spaced, and its words are exactly
  the capitalized words of the input. Any whitespace character separates
  words, and `capitalize()` is pinned down by its two properties: the
  same letters up to case, and the capitalized shape.

## Model

| member | source | states |
|---|---|---|
| Text.Strip | src/clean_csv.py:20 | `strip()` never lengthens its input and leaves no whitespace at either end |
| Text.IsDigits | src/clean_csv.py:31 | `isdigit()` holds exactly for non-empty runs of ASCII decimal digits; such a run has no whitespace at either end |
| Text.StripProperties | src/clean_csv.py:20 | `strip()` returns a contiguous slice of the input with only whitespace removed around it, and is empty exactly when the input is all whitespace |
| Text.StripIdempotent | src/clean_csv.py:30 | stripping stripped text changes nothing |
| Text.StripTrimmed | src/clean_csv.py:69 | text without whitespace at its ends is its own `strip()` |
| Text.StripPadded | src/clean_csv.py:20 | `strip()` of text without edge whitespace, padded by whitespace on both sides, removes exactly the padding |
| Text.Lower | src/clean_csv.py:25 | `lower()` keeps the length and maps each character through the ASCII lower-case mapping |
| Text.LowerProperties | src/clean_csv.py:25 | `lower()` leaves no upper-case letter, is idempotent and keeps the absence of edge whitespace |
| Text.Capitalize | src/clean_csv.py:20 | `capitalize()` keeps the length of the word |
| Text.CapitalizeLetters | src/clean_csv.py:20 | `capitalize()` changes only the case of letters (the result lower-cased is the word lower-cased), and leaves the first character not lower case and the rest not upper case |
| Text.CapitalizeUnique | src/clean_csv.py:20 | any text with the word's letters up to case and the capitalized shape is the word's `capitalize()`, so the two properties determine it |
| Text.CapitalizeProperties | src/clean_csv.py:20 | `capitalize()` of a word is a word of the same length, starts with a non-lower-case letter with only non-upper-case after it, and is idempotent |
| Text.Split | src/clean_csv.py:20 | `split()` yields at most as many words as the text has characters |
| Text.SplitWords | src/clean_csv.py:20 | everything `split()` yields is a non-empty word without whitespace |
| Text.SplitEmpty | src/clean_csv.py:20 | `split()` yields nothing exactly when the text is all whitespace |
| Text.SplitWord | src/clean_csv.py:20 | a word on its own splits into itself |
| Text.SplitAtSpace | src/clean_csv.py:20 | any whitespace character separates: `split()` of `x + c + y` with `c` whitespace is `split()` of `x` followed by `split()` of `y`, so runs of spaces, tabs or newlines of any length act as one separator |
| Text.JoinSpace | src/clean_csv.py:20 | `" ".join(ws)` starts with the first word |
| Text.SplitJoin | src/clean_csv.py:20 | splitting words joined by single spaces gives back the same words |
| Text.JoinSingleSpaced | src/clean_csv.py:20 | words joined by `" "` have only single spaces, never at an end and never doubled |
| Normalizers.Caps | src/clean_csv.py:20 | the generator yields one word per input word |
| Normalizers.CapsEach | src/clean_csv.py:20 | the generator keeps the words in order, each the `capitalize()` of its input word and equal to it up to case |
| Normalizers.CapsWords | src/clean_csv.py:20 | capitalized words are capitalized words without whitespace, and capitalizing them again changes nothing |
| Normalizers.CleanName | src/clean_csv.py:18-20 | a cleaned name is single-spaced, and its words are the capitalized words of the trimmed input |
| Normalizers.CleanNameProperties | src/clean_csv.py:18-20 | a cleaned name has no edge whitespace, every word is capitalized, and it is empty exactly when the input is blank |
| Normalizers.CleanNameIdempotent | src/clean_csv.py:18-20 | cleaning a cleaned name changes nothing |
| Normalizers.CleanEmail | src/clean_csv.py:23-25 | the cleaned address has no upper-case letter and no edge whitespace, and it is the trimmed input letter for letter up to case |
| Normalizers.CleanEmailIdempotent | src/clean_csv.py:23-25 | cleaning a cleaned address changes nothing |
| Normalizers.CleanAge | src/clean_csv.py:28-31 | the cleaned age is the trimmed input when that is a non-empty run of digits, and "" otherwise (both directions) |
| Normalizers.CleanAgeIdempotent | src/clean_csv.py:28-31 | cleaning a cleaned age changes nothing |
| Dates.DaysInMonth | src/clean_csv.py:45 | the day count `datetime` allows per month: 29 exactly in a leap February, 28 exactly in another February, 30 exactly in April, June, September, November |
| Dates.ValidDate | src/clean_csv.py:45 | a date `datetime` accepts has a year in 1..9999, a month in 1..12 and a day in 1..31 |
| Dates.Compile | src/clean_csv.py:45 | a format that compiles has no more directives than characters |
| Dates.CompileFormats | src/clean_csv.py:10-15 | each of the four accepted format strings, and the output format, compiles to its directive list: the field order and the separator |
| Dates.Candidates | src/clean_csv.py:45 | every alternative a field pattern offers consumes at least one and at most all remaining characters |
| Dates.Scan | src/clean_csv.py:45 | a pattern that matches at the start of the text leaves a suffix of it unread |
| Dates.TryCandidates | src/clean_csv.py:45 | trying the alternatives in order also leaves a suffix of the text unread |
| Dates.Strptime | src/clean_csv.py:45 | whatever `strptime` returns is a real calendar date between years 1 and 9999 |
| Dates.NumberPad4 | src/clean_csv.py:45 | reading back a four-digit zero-padded year gives the year |
| Dates.IsoText | src/clean_csv.py:45 | `strftime("%Y-%m-%d")` is ten characters long |
| Dates.IsoTextReadsBack | src/clean_csv.py:45 | the ISO text has `-` at positions 4 and 7 and digit fields that read back as the year, month and day; for a real date it is an ISO date |
| Dates.ScanRender | src/clean_csv.py:45 | the pattern of a format matches the text that format renders for a date, consumes exactly that text, and reads back the date's fields |
| Dates.ExactScanInRange | src/clean_csv.py:45 | when a format's pattern reads a zero-padded text to its end, the month is in 1..12 and the day in 1..31 |
| Dates.StrptimeRenderedOwn | src/clean_csv.py:45 | `strptime` with the format a zero-padded text was written in returns the date when it is real and fails when it is not, including out-of-range months and days |
| Dates.StrptimeRenderedOther | src/clean_csv.py:43-47 | no other accepted format parses that text |
| Dates.FirstMatch | src/clean_csv.py:43-47 | the loop over the formats only ever returns a real date |
| Dates.FirstMatchIsFirst | src/clean_csv.py:43-47 | the loop finds nothing exactly when every format fails; when it finds a date, that is the result of some format that all earlier formats failed before |
| Dates.FirstMatchAt | src/clean_csv.py:43-47 | the first format that parses decides the result |
| Dates.NormalizeDate | src/clean_csv.py:34-49 | `normalize_date` returns "" or an ISO date, and "" for empty or whitespace-only text |
| Dates.NormalizeDateLoop | src/clean_csv.py:39-49 | the loop with early return computes `normalize_date`, and its result is "" or an ISO date |
| Dates.NormalizeDateShape | src/clean_csv.py:34-49 | `normalize_date` returns "" or the ISO text of a real date |
| Dates.NormalizeRendered | src/clean_csv.py:39-49 | a zero-padded date in any accepted format normalizes to its ISO text when the date is real and to "" when it is not |
| Dates.NormalizeDateIdempotent | src/clean_csv.py:34-49 | normalizing a normalized date changes nothing |
| Rows.FirstMissing | src/clean_csv.py:65-71 | finds nothing exactly when every column is present; otherwise it returns an absent column that every earlier column precedes present |
| Rows.CleanRow | src/clean_csv.py:65-71 | cleaning succeeds exactly when the five columns are present; a `KeyError` names an absent column; a cleaned record has exactly the five columns |
| Rows.CleanRowOutcome | src/clean_csv.py:65-71 | the `KeyError` names the first missing column in lookup order |
| Rows.CleanRowValues | src/clean_csv.py:65-71 | each column of a cleaned record holds its cleaner's result on the input cell; `country` is only trimmed |
| Rows.CleanRowShape | src/clean_csv.py:65-71 | each cell of a cleaned record is in cleaned form: a single-spaced name, a lower-case trimmed address, an age that is "" or digits, a trimmed country, a date that is "" or ISO |
| Rows.CleanRowIdempotent | src/clean_csv.py:65-71 | cleaning a cleaned record gives it back unchanged |
| Rows.WriteRecord | src/clean_csv.py:73 | the writer emits one cell per header column when every key of the record is in the header; otherwise it raises `ValueError` naming exactly the keys outside the header |
| Rows.WriteCleanedRecord | src/clean_csv.py:73 | the writer takes a record with the five cleaned columns exactly when the header names all five, and otherwise names the five columns the header lacks; a written line has each header column's value, or "" |
| Rows.ProcessRow | src/clean_csv.py:65-73 | a record that is written was cleaned, and its line has one cell per header column |
| Rows.ProcessRowOutcome | src/clean_csv.py:65-73 | writing a record succeeds exactly when it has the five columns and the header names them all; a record that lacks a column fails with `KeyError` naming the first absent column in lookup order; a refused record names the columns missing from the header; a written line has the cleaned value under each of the five columns and "" under the others |
| Rows.WriteColumns | src/clean_csv.py:73 | under a header of exactly the five columns in lookup order, a five-column record is written as its values in that order |
| Rows.ProcessRowColumns | src/clean_csv.py:65-73 | under that header, a complete record is written as its cleaned name, address, age, country and date, in that order |
| Rows.ProcessRows | src/clean_csv.py:62-73 | the output is the header line, then one line per record in input order, each the cleaned and written record, stopping at the first record that raises. The method reports that record's error |
| Examples.CleanNameExample | src/clean_csv.py:20 | `clean_name("ann  LEE")` is `"Ann Lee"` |
| Examples.CleanNameSpacesExample | src/clean_csv.py:20 | `clean_name("  john   DOE ")` is `"John Doe"` |
| Examples.CleanEmailExample | src/clean_csv.py:25 | `clean_email("  John.Doe@Example.COM ")` is `"john.doe@example.com"` |
| Examples.CleanAgeExamples | src/clean_csv.py:30-31 | `"27 "` and `"27"` both give `"27"`; `"twenty"`, `""` and `"-5"` become "" |
| Examples.AliceRecordExample | src/clean_csv.py:65-73 | under the header `name,email,age,country,signup_date`, the record `  alice smith , ALICE@EX.COM , 31 , usa , 2022-13-40` is written as `Alice Smith,alice@ex.com,31,usa,` |
| Examples.DayFirstExample | src/clean_csv.py:12 | `"12/11/2022"` normalizes to `"2022-11-12"` |
| Examples.YearSlashExample | src/clean_csv.py:13 | `"2021/08/19"` is read by the third format and gives `"2021-08-19"` |
| Examples.NotADateExample | src/clean_csv.py:43-49 | `"not a date"` is read by no format and gives "" |
| Examples.AmbiguousExample | src/clean_csv.py:43-47 | `"05/06/2023"` is read day first, as `"2023-06-05"` |
| Examples.ImpossibleExample | src/clean_csv.py:14 | `"31-02-2023"` fits the day-first dash format but is no date, and gives "" |
| Examples.OutOfRangeExample | src/clean_csv.py:43-49 | `"2022-13-40"` is read by no format and gives "" |
| Examples.OneDigitExample | src/clean_csv.py:11 | `"2023-5-7"` is read through the one-digit alternatives of `%m` and `%d` and gives `"2023-05-07"` |

## Left out

- File handling is not modelled: the input and output paths, `mkdir`, opening files and UTF-8 decoding and encoding. The model starts from the header and the records already read, and ends with the output lines.
- The CSV format is not modelled: quoting, escaping, line endings and splitting lines into cells all belong to the `csv` module. Records are maps from column name to text.
- The reader's handling of ragged lines is not modelled: `None` cells for a short line and the `None` key for a long one. An input file with no header line is left out too.
- Text is ASCII only. Whitespace is Python's ASCII whitespace: tab, line feed, vertical tab, form feed, carriage return, the four separators 28 to 31, and space. Unicode case mapping, Unicode digits, and characters outside ASCII such as U+00A0 are not modelled.
- Dates.Compile: covers only the directives the accepted formats use (`%Y`, `%m`, `%d`, `%%`). Other directives and whitespace in a format string count as errors. In `strptime`, whitespace in a format matches any run of whitespace. Neither case occurs in the four formats.
- Dates.IsoText: always pads the year to four digits. Some older Pythons on glibc printed years below 1000 without padding.
- Dates.NormalizeRendered: covers only zero-padded input, with month and day written in two digits. Texts the single-digit alternatives of `%m` and `%d` accept, such as `2023-5-7`, are parsed by the same model. They are covered only by the worked example `Examples.OneDigitExample`, not by a lemma for all inputs.
- The exceptions other than `ValueError` and `KeyError` are not modelled: an `AttributeError` from calling `.strip()` on a `None` cell, an `OSError` while writing. A failed record is reported as the method's error instead of unwinding the program.
