# Article front matter of web-rs, modelled in Dafny

The blog keeps its articles as Markdown files whose first lines carry
metadata written as `% key: value`. This project models the code that reads
those lines:

- `src/utils/ingest.rs`, the current version. `get_metadata` runs the regex
  `% (\w+): (.+)` over every line of the text. It stores the value of the
  keys `id`, `title`, `date` and `tags` in a `Metadata` record, where a later
  line overwrites an earlier one. It returns the record only when all four
  keys were found. `metadata_to_blog` turns such a record into a `Blog`. It
  parses the id as an `i32`, parses the date with the format
  `[year]-[month]-[day]` and an `unwrap`, and splits the tags on `", "`.
- `src/crud/generate_metadata.rs`, the older version. It tries three separate
  regexes, `% id: (.*)`, `% title: (.*)` and `% date: (.*)`, on every line
  the reader yields. The id is parsed as an `i16` with `unwrap`. The record
  is returned whether or not it is complete.

Files:

- `wrappers.dfy`: `Option` and `Completion`. A `Completion` is how a Rust call
  ends: `Returned(v)`, or `Panicked` when an `unwrap` fails.
- `text.dfy`: substring search, `str::lines()`, `split(", ")` and `join`.
- `numbers.dfy`: `i32` and `i16` as subset types, and `str::parse` for them
  with `to_string` as its inverse.
- `calendar.dfy`: the `time` crate's `Date`, date validity,
  `Date::parse` with `[year]-[month]-[day]` and `Date`'s `Display` as its
  inverse.
- `blog.dfy`: the `Blog` row (`src/crud/blog.rs:9-16`).
- `ingest.dfy`: the regex as a string predicate, the loop of `get_metadata`
  as a method with its fold `Scan`, and `metadata_to_blog`.
- `generate_metadata.dfy`: the three marker regexes, the loop of the older
  `get_metadata` as a method with its fold `Scan`, and the panic on a bad id.

Each regex is stated twice. `IsMatch` is a declarative predicate that says
when the pattern matches at a position with given captures. A deterministic
matcher (`FrontMatterMatch`, `MarkerMatch`) returns what the regex engine
reports, and its contract ties it to `IsMatch`: it takes the leftmost
position, and at that position the longest value, because `.+` and `.*` are
greedy.

Behaviour worth noting:

- tags are not trimmed;
- `summary` and `body` stay empty (nothing is sliced from a fixed line);
- a bad date panics rather than returning an error;
- `ingest_articles` never calls `metadata_to_blog`.

## Model

| member | source | states |
|---|---|---|
| `Text.Lines` | src/utils/ingest.rs:87 | `text.lines()` yields lines that never contain `\n`, and no lines at all exactly for the empty text |
| `Text.LinesJoin` | src/utils/ingest.rs:87 | for a text without `\r`, joining its lines with `\n` gives the text back, less one final line ending |
| `Text.LinesCons` | src/utils/ingest.rs:87 | on a text without `\r` that holds a `\n`, the first line is everything before the first `\n`, and the other lines are the lines of what follows it |
| `Text.LinesCRLF` | src/utils/ingest.rs:87 | a line ended by `\r\n` loses both characters, and the lines after it are the lines of the rest |
| `Text.LinesFinalCR` | src/utils/ingest.rs:87 | a bare `\r` at the very end of the text is not a line ending and stays in the last line |
| `Text.LinesLF` | src/utils/ingest.rs:87 | a line ended by a `\n` with no `\r` right before it keeps everything it holds, a `\r` inside included, and the lines after it are the lines of the rest |
| `Text.LinesLast` | src/utils/ingest.rs:87 | a non-empty last line without a line ending is one line holding all of it, any `\r` included |
| `Text.LinesMixedEndings` | src/utils/ingest.rs:87 | `"x\ny\r\nz"`, with a `\n` and a `\r\n` ending, yields the lines `x`, `y` and `z` |
| `Text.LineRun` | src/utils/ingest.rs:85 | the regex `.` takes the longest stretch from a position that holds no `\n`, up to the end of the line or the first `\n` |
| `Text.FindFrom` | src/crud/generate_metadata.rs:44-46 | the leftmost occurrence of a literal at or after a position; when it finds none, there is none |
| `Text.Split` | src/utils/ingest.rs:44 | `split(", ")` yields at least one piece, and no piece contains the separator |
| `Text.JoinSplit` | src/utils/ingest.rs:40-46 | joining the split tags with `", "` gives the raw tags string back |
| `Text.SplitWithoutSeparator` | src/utils/ingest.rs:40-46 | a tags string without `", "` is exactly one tag |
| `Text.SplitJoin` | src/utils/ingest.rs:40-46 | splitting a `", "`-join of pieces that hold no `", "` gives those pieces back |
| `Text.FirstCommaSpace` | src/utils/ingest.rs:44 | in `p + ", " + rest` with no `", "` inside `p`, the first separator is the one right after `p` |
| `Numbers.ParseInteger` | src/utils/ingest.rs:33 | `parse` succeeds exactly on an optional sign, then one or more ASCII digits, with a value in the type's range, and returns that value |
| `Numbers.ParseI32` | src/utils/ingest.rs:33 | `parse::<i32>()` succeeds exactly on a decimal literal in [-2^31, 2^31-1] and returns its value |
| `Numbers.ParseI16` | src/crud/generate_metadata.rs:51 | `parse::<i16>()` succeeds exactly on a decimal literal in [-32768, 32767] and returns its value |
| `Numbers.NatDigits` | src/utils/ingest.rs:33 | the decimal digits of a natural number are non-empty, all digits, and read back as the number |
| `Numbers.ParseFormatInteger` | src/utils/ingest.rs:33 | parsing the decimal rendering of any in-range integer gives that integer back |
| `Numbers.PadDigitsValue` | src/utils/ingest.rs:37 | a number below 10^w reads back from its w-digit zero-padded rendering |
| `Numbers.DigitsPadRoundTrip` | src/utils/ingest.rs:37 | a string of digits is the zero-padded rendering of its own value |
| `Calendar.DaysInMonth` | src/utils/ingest.rs:38 | a month has 28 to 31 days, and 29 exactly for February of a Gregorian leap year |
| `Calendar.FieldsRoundTrip` | src/utils/ingest.rs:37 | the `YYYY-MM-DD` fields read back from their padded rendering |
| `Calendar.FieldsSpelling` | src/utils/ingest.rs:37 | text that reads as `YYYY-MM-DD` fields is the padded rendering of those fields |
| `Calendar.ParseDate` | src/utils/ingest.rs:36-38 | `Date::parse` with `[year]-[month]-[day]` only ever yields a valid calendar date |
| `Calendar.ParseFormatDate` | src/utils/ingest.rs:36-38 | parsing the rendering of any valid date gives that date back |
| `Calendar.ParseDateSpelling` | src/utils/ingest.rs:36-38 | a string the parse accepts is the date's rendering, or that rendering with a leading `+`, or with a `-` before year zero |
| `Ingest.CompleteIffAllKeys` | src/utils/ingest.rs:72-74 | `is_complete` holds exactly when every one of the four keys has a value |
| `Ingest.KeyOf` | src/utils/ingest.rs:90-95 | a key name selects a field exactly when it is `id`, `title`, `date` or `tags` |
| `Ingest.WordRun` | src/utils/ingest.rs:85 | `\w+` takes the longest run of word characters from a position |
| `Ingest.MatchAt` | src/utils/ingest.rs:85 | what the engine takes when it tries one position is a match of `% (\w+): (.+)` there |
| `Ingest.MatchAtComplete` | src/utils/ingest.rs:85 | at a position where the pattern matches, the key is the whole word run and the value taken is the longest one |
| `Ingest.FirstMatch` | src/utils/ingest.rs:88 | the search from a position returns a match, at the leftmost matching position, with the longest value there |
| `Ingest.FrontMatterMatch` | src/utils/ingest.rs:85-89 | `re.captures(line)` is `None` exactly when the pattern matches nowhere; otherwise it is the leftmost match, with the whole word run as key and the longest value |
| `Ingest.ValueRunsToEndOfLine` | src/utils/ingest.rs:85-89 | on a line without `\n`, the value is everything after the `: ` that ends the key, further `: ` included |
| `Ingest.WholeLineMatch` | src/utils/ingest.rs:85-89 | a match at index 0 that reaches the end of the line is the capture reported |
| `Ingest.WellFormedLine` | src/utils/ingest.rs:85-89 | a line `% key: value` with a word key and a non-empty value yields exactly that key and value |
| `Ingest.ApplyLine` | src/utils/ingest.rs:88-97 | one line sets the field its key names to its value; every other field keeps its value; a non-matching line or an unknown key changes nothing |
| `Ingest.GetMetadata` | src/utils/ingest.rs:77-106 | the loop computes the fold `Scan` of the lines from the empty record; the result is `Some` exactly when that record is complete, and a `Some` record is complete |
| `Ingest.ScanUntouched` | src/utils/ingest.rs:87-99 | a field that no line names keeps its starting value |
| `Ingest.ScanLastWins` | src/utils/ingest.rs:87-99 | a field holds the value of the last line that names it |
| `Ingest.ScanFound` | src/utils/ingest.rs:87-99 | a field ends up set exactly when it started set or some line names it |
| `Ingest.MetadataFoundIff` | src/utils/ingest.rs:101-105 | `get_metadata` finds a record exactly when each of the four keys is named by some line of the text |
| `Ingest.MetadataToBlog` | src/utils/ingest.rs:31-61 | `None` exactly for an incomplete record or a non-`i32` id; a panic exactly when the id is good and the date is not a real date; otherwise the id is the literal's value, the title is copied, summary and body are empty, the date is the valid parsed date, and the tags are non-empty, free of `", "` and join back to the raw string |
| `Ingest.SingleTag` | src/utils/ingest.rs:40-46 | a tags value without `", "` becomes the single tag holding the whole value |
| `Ingest.ExampleConversion` | src/utils/ingest.rs:31-61 | the record `420`, `T`, `2024-01-01`, `a, b, c` becomes `Blog{420, "T", "", "", 2024-01-01, ["a","b","c"]}` |
| `GenerateMetadata.MarkerMatch` | src/crud/generate_metadata.rs:44-46 | `<marker>(.*)` matches at the leftmost occurrence of the marker, and captures the longest stretch after it without a `\n`, which may be empty |
| `GenerateMetadata.MarkerLine` | src/crud/generate_metadata.rs:44-46 | a line that starts with a marker captures everything after it, including the empty string |
| `GenerateMetadata.TwoFieldsOneLine` | src/crud/generate_metadata.rs:50-58 | the three patterns are tried independently on each line, so `% title: <t>% date: <d>` sets the title to `<t>% date: <d>` and the date to `<d>`, both from one line, and leaves the id alone |
| `GenerateMetadata.Apply` | src/crud/generate_metadata.rs:50-58 | for a line that was read: each pattern that captured sets its own field (the id parsed as an `i16`) and leaves the others alone; it panics exactly when the id capture is not an `i16` |
| `GenerateMetadata.Step` | src/crud/generate_metadata.rs:49-58 | a line that failed to read changes nothing; otherwise each of the three fields is set from its own pattern's capture, independently of the other two, and the step panics exactly when the id capture is not an `i16` |
| `GenerateMetadata.PanicPersists` | src/crud/generate_metadata.rs:51 | once a line has panicked, the whole scan has panicked, whatever follows |
| `GenerateMetadata.GetMetadata` | src/crud/generate_metadata.rs:38-72 | the loop computes the fold `Scan` of the lines from the all-`None` record and returns it as it is, with no completeness check |
| `GenerateMetadata.ScanPanicsIff` | src/crud/generate_metadata.rs:51 | the scan panics exactly when some line read carries an id capture that is not an `i16`; a missing field never stops it |
| `GenerateMetadata.ScanUntouched` | src/crud/generate_metadata.rs:38-59 | a field whose pattern matches no line keeps its starting value, so from the empty record it stays `None` |
| `GenerateMetadata.ScanLastWins` | src/crud/generate_metadata.rs:48-59 | a field holds what the last matching line captured, decoded as an `i16` for the id |

## Left out

- `ingest_articles` and `main` in `src/utils/ingest.rs`, and `main` in `src/crud/generate_metadata.rs`: they walk a directory, read files and print. The text of one file, or the read results of its lines, is a parameter instead.
- `File::open(path).expect(...)` at the start of the older `get_metadata`: this is file I/O. A failed open panics before the loop and is not modelled.
- The `Blog::create_blog` call at the end of the older `get_metadata`: it is a database write with fixed placeholder values, and it is not defined in `src/crud/blog.rs`. The model returns the record right after the loop.
- Reading a line with `BufRead::lines()`: I/O. The lines come in as `Option<string>`, with `None` for a line that failed to read.
- `Ingest.IsWordChar`: `\w` is taken as ASCII letters, digits and `_`. The regex crate's Unicode word class is not modelled. Wherever a `% ` is followed by a word run that holds a non-ASCII word character, the engine matches there with a key that is none of the four, so the line changes nothing; the model looks further along the line and may set a field from a later `% key: `.
- `Calendar.ParseDate`: assumes the `time` crate is built without its `large-dates` feature, so a year has exactly four digits. The crate's manifest is not part of this model.
- `Numbers.ParseInteger`: works on characters rather than UTF-8 bytes. The accepted strings are the same, because a non-ASCII character is never a digit or a sign.
- A panic is modelled as the value `Panicked`. Unwinding and the panic message are not modelled.
