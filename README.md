# Corpus cleaner and chunker, modelled in Dafny

This project models two offline stages of a small corpus pipeline for mental-health web content. Each stage works on a table whose columns are URL, Content Type, Topic, Sub Topic and Content.

- **Cleaner** (`clean_csv.py`). `clean_text` strips tag-like spans with the lazy pattern `<.*?>`. It then collapses whitespace runs to one space and trims. `clean_csv` runs a fixed sequence of whole-table steps, in this order:
  1. drop duplicates on (URL, Content), keeping the first;
  2. drop rows with a missing URL or Content;
  3. fill a missing Topic / Sub Topic with `Unknown`;
  4. clean the Content;
  5. title-case Topic / Sub Topic;
  6. lower-case Content Type;
  7. strip every string cell.
- **Chunker** (`chunking.py`). `split_into_chunks` splits a text on whitespace and joins each run of `chunk_size` consecutive words with single spaces. `process_csv` checks the required columns. It then walks the rows in order and emits one flat list of records. Each record has the id `"{row}_{chunk}"` and the row's URL, Content Type, Topic and Sub Topic.

Modules:

- `Tables` (`tables.dfy`): the table as read from the CSV file. A row is five `Option<string>` cells, where `None` is pandas' NaN. The module also holds the column names.
- `Text` (`text.dfy`): the Python string operations the stages use:
  - `str.split()` (`Words`) and `' '.join` (`Join`);
  - `re.sub(r'\s+', ' ', …)` (`CollapseSpace`) and `str.strip()` (`Strip`);
  - `str.lower()` (`Lower`) and `str.title()` (`Title`);
  - the decimal formatting of the id (`Decimal`);
  - `IsSpace`, Python's whitespace predicate, given as a table of code-point ranges.
- `Cleaning` (`cleaning.dfy`): the tag scanner `StripTags`, `CleanText`, the row steps and `CleanCsv`.
- `Chunking` (`chunking.dfy`): Python's `range`, `SplitIntoChunks`, the record table `ChunkTable`, and the methods `ProcessCsv` and `AppendRowRecords`.

`StripTags` scans from left to right, as `re.sub(r'<.*?>', '', s)` does:
- At a `<` it looks for the first `>` or newline.
- At a `>` the tag is removed.
- At a newline, or at the end of the text, the `<` is kept and scanning resumes after it.

`CleanCsv` and `ProcessCsv` are methods because the source rebinds the table step by step (`clean_csv`) and appends to a list in nested loops (`process_csv`). They are proved against the functions `Cleaned` and `ChunkTable`, and the properties of the result are lemmas about those functions.

Points where the code behaves differently from what one might expect of it:

- **Step order.** The code deduplicates first (`clean_csv.py:33`), then drops rows with a missing URL or Content (`:37`). Describing the cleaner as "drop incomplete rows, then deduplicate" reverses the two. `Cleaning.DropsCommute` proves that both orders keep the same rows.
- **Idempotence.** One might expect cleaning a cleaned table to change nothing. The code does not guarantee it, for two reasons:
  - `Cleaning.CleanTextNotIdempotent` exhibits a tag that spans a newline. The tag survives the first pass and is removed by the second.
  - `Cleaning.CleanedNotIdempotent` exhibits two rows with one URL whose contents differ only in markup. Both survive the first pass, because dedup runs before `clean_text`, and one of them is dropped on the second pass.
  - What does hold is `Cleaning.CleanTextIdempotent`: idempotence for text without a newline.
- **Missing column.** A missing column is not checked up front in `clean_csv`. It is a `KeyError` raised by the first step that uses the column, and nothing is written. `CleanCsv` returns `KeyError` with the missing names of that step.
- **A column with no values.** `read_csv` types a column with rows but no value as float64. The `.str` calls then raise `AttributeError`. This happens for Content Type (`clean_csv.py:55`), and for Topic or Sub Topic when no row survives the drops to receive `Unknown` (`:50-51`). `CleanCsv` returns `AttributeError` in these cases.

## Model

| member | source | states |
|---|---|---|
| Cleaning.CleanText | clean_csv.py:9-10 | the cleaned text is whitespace-normalised (non-empty words, single spaces, no edge whitespace), equals the words of the tag-stripped text joined by single spaces, and contains no newline |
| Cleaning.StripTags | clean_csv.py:9 | the substitution `re.sub(r'<.*?>', '', s)` as a left-to-right scan; the result is never longer than the input |
| Cleaning.StripTagsRemovesOnly | clean_csv.py:9 | tag removal only deletes characters (the result's multiset is within the input's) and keeps a newline exactly when the input has one |
| Cleaning.StripTagsIsTagFree | clean_csv.py:9 | after one pass no `<…>` span without a newline remains at any scanning position |
| Cleaning.TagFreeUnchanged | clean_csv.py:9 | text with no removable tag is left unchanged by the pass |
| Cleaning.NoOpenerUnchanged | clean_csv.py:9 | text without `<` is left unchanged by the pass |
| Cleaning.KeepsPlainStretch | clean_csv.py:9 | a stretch with no `>` and no newline, ended by a newline or the end of the text, is kept and scanning resumes after it |
| Cleaning.KeepsPlainPrefix | clean_csv.py:9 | a prefix without `<` is kept verbatim in front of the rest's result |
| Cleaning.TagThenRest | clean_csv.py:9 | a leading `<inner>` (inner without `>` or newline) is removed and the rest is scanned independently |
| Cleaning.RejectsUnclosed | clean_csv.py:9 | when a `<` whose scan hits a newline or the end of the text is kept (as `KeepsPlainStretch` shows it is), the output does not open a tag at that `<` |
| Cleaning.CleanTextUnwraps | clean_csv.py:9-10 | `<p>text</p>` cleans to the same text as `text` alone, e.g. `<p>Hello world</p>` becomes `Hello world` |
| Cleaning.CleanTextWords | clean_csv.py:9-10 | the words of the cleaned text are the words of the tag-stripped text |
| Cleaning.CleanTextKeepsCleanText | clean_csv.py:9-10 | normalised text without `<` is a fixed point of cleaning |
| Cleaning.CleanTextIdempotent | clean_csv.py:9-10 | on text without a newline, cleaning twice equals cleaning once |
| Cleaning.OpenBeforeCloseIgnoresSpace | clean_csv.py:9-10 | whether a `<` precedes a `>` does not depend on whitespace, which is why normalisation cannot create a tag from newline-free text |
| Cleaning.TagFreeWithoutNewline | clean_csv.py:9 | on newline-free text, "no removable tag" means exactly "no `<` before a `>`" |
| Cleaning.CleanTextNotIdempotent | clean_csv.py:9-10 | `a<b\nc>d` cleans to `a<b c>d`, which cleans again to `ad`: cleaning is not idempotent in general |
| Cleaning.NewlineStopsTag | clean_csv.py:9-10 | a newline inside `<…>` stops the lazy match and is turned into a space |
| Cleaning.SpaceDoesNotStopTag | clean_csv.py:9-10 | a space inside `<…>` does not stop the match, so the whole span is removed |
| Text.CollapseSpace | clean_csv.py:10 | `re.sub(r'\s+', ' ', s)`, never longer than the input; what it means after the strip is `CollapseThenStripIsJoinedWords` |
| Text.CollapseThenStripIsJoinedWords | clean_csv.py:10 | collapsing whitespace runs and stripping equals joining `split()`'s words with single spaces |
| Text.NormalizeIdempotent | clean_csv.py:10 | collapsing and stripping a second time changes nothing |
| Text.NormalizedIsJoinedWords | clean_csv.py:10 | a normalised text is the single-space join of its own words |
| Text.NormalizeKeepsNonSpace | clean_csv.py:10 | normalisation keeps every non-whitespace character, in order |
| Text.Strip | clean_csv.py:10 | `str.strip()` returns the input's slice between its leading and trailing whitespace, has no edge whitespace, and is empty exactly when the input is all whitespace |
| Text.StripFrame | clean_csv.py:59 | stripping whitespace-padded trimmed text gives back that text |
| Text.StripKeepsTrimmed | clean_csv.py:59 | stripping a trimmed string changes nothing |
| Text.Words | chunking.py:8 | `split()` gives no words exactly when the text is all whitespace |
| Text.WordsAreWords | chunking.py:8 | every word from `split()` is non-empty and contains no whitespace |
| Text.WordsCoverNonSpace | chunking.py:8 | the words, concatenated, are exactly the text's non-whitespace characters |
| Text.WordsOfJoin | chunking.py:8-9 | splitting a single-space join of words gives those words back |
| Text.Join | chunking.py:9 | `' '.join(ws)`, empty for no words; `WordsOfJoin` (split inverts it) and `JoinNormalized` state what it produces |
| Text.JoinNormalized | chunking.py:9 | joining words with single spaces gives normalised text that starts and ends with the outer words' edge characters |
| Text.NonSpaceOfJoin | chunking.py:9 | joining words adds only whitespace |
| Cleaning.DropDuplicates | clean_csv.py:33 | the result has distinct (URL, Content) keys, is no longer than the input, and holds only input rows |
| Cleaning.DropNa | clean_csv.py:37 | `dropna(subset=['Content', 'URL'])`, never longer than the input; which rows it keeps is `DropNaMembers` |
| Cleaning.DropNaMembers | clean_csv.py:37 | a row survives the null-drop exactly when it is an input row with URL and Content present |
| Cleaning.Survivors | clean_csv.py:33-37 | the kept positions increase strictly, and a position is kept exactly when its row has URL and Content and is the first with its key |
| Cleaning.DropsSelectSurvivors | clean_csv.py:33-37 | dedup followed by null-drop keeps exactly the rows at the surviving positions, in input order (an order-preserving subsequence) |
| Cleaning.DropsCommute | clean_csv.py:33-37 | dropping nulls before or after dedup keeps the same rows |
| Cleaning.EveryKeyKept | clean_csv.py:33-37 | every row with URL and Content has a kept row at or before it with the same key, i.e. the first occurrence is the one kept |
| Text.Title | clean_csv.py:50-51 | `str.title()` keeps the length and each letter's identity up to case, and yields title case: a letter after a letter is lower, any other letter upper |
| Text.TitleKeepsTitleCased | clean_csv.py:50-51 | title-casing an already title-cased string changes nothing |
| Text.StripKeepsTitleCased | clean_csv.py:50-59 | stripping keeps title case |
| Text.Lower | clean_csv.py:55 | `str.lower()` keeps the length, leaves no upper-case letter, keeps each letter up to case and leaves other characters alone |
| Text.StripKeepsLower | clean_csv.py:55-59 | stripping keeps a string free of upper-case letters |
| Cleaning.UnknownIsClean | clean_csv.py:41-59 | the fill value `Unknown` is unchanged by title-casing and stripping |
| Cleaning.CleanRow | clean_csv.py:41-59 | a cleaned row has a stripped URL, cleaned Content, `Unknown` for a missing Topic / Sub Topic, a present Topic / Sub Topic title-cased then stripped, a present Content Type lower-cased then stripped, and a missing Content Type stays missing; so every Topic and Sub Topic is title-cased and trimmed and every Content Type lower-case and trimmed |
| Cleaning.CleanRowExample | clean_csv.py:41-59 | the row (URL `http://x`, Content Type `Dynamic`, no Topic, Sub Topic `Anxiety`, Content `<p>Hello world</p>`) cleans to (`http://x`, `dynamic`, `Unknown`, `Anxiety`, `Hello world`) |
| Cleaning.ColumnSteps | clean_csv.py:41-59 | the column rewrites in the code's order keep the number of rows, leave Topic and Sub Topic present in every row, and keep URL, Content and Content Type present exactly where they were |
| Cleaning.ColumnStepsAreCleanRow | clean_csv.py:41-59 | the five column-wide steps, applied in the code's order, clean each row independently (as `CleanRow`) |
| Cleaning.CleanedIsColumnSteps | clean_csv.py:33-59 | the whole cleaner is the column steps applied after dedup and null-drop |
| Cleaning.Cleaned | clean_csv.py:33-59 | the cleaned table has no more rows than the input and every row in it is clean |
| Cleaning.CleanCsv | clean_csv.py:23-64 | fails exactly when a required column is missing or a `.str` call meets a column with no value; a `KeyError` names missing required columns and occurs only when one is missing (URL / Content first, as the dedup step needs them); with all columns present, a column with no value gives `AttributeError`; otherwise it returns the cleaned rows |
| Cleaning.KeyColumnsPresent | clean_csv.py:33 | the dedup step's missing-column set is empty exactly when URL and Content are columns |
| Cleaning.DistinctKeysKept | clean_csv.py:33-59 | two present rows with different keys are both kept, each cleaned, in order |
| Cleaning.SameKeyDropped | clean_csv.py:33 | of two present rows with the same key only one is kept |
| Cleaning.CleanedNotIdempotent | clean_csv.py:33-59 | two rows with one URL whose contents differ but clean alike both survive one pass, and only one survives a second |
| Tables.RequiredNamesAreTheColumns | chunking.py:19-20 | a table has the five columns exactly when every required name is among its headers |
| Chunking.Range | chunking.py:9 | Python's `range(start, stop, step)`: values in `[start, stop)`, consecutive values `step` apart, starting at `start`, empty exactly when `start >= stop`, and reaching within `step` of `stop` |
| Chunking.RangeLength | chunking.py:9 | the range has the least length whose multiple of `step` covers `stop - start` |
| Chunking.RangeCount | chunking.py:9 | `len(range(0, n, k))` is `ceil(n / k)` |
| Chunking.SplitIntoChunks | chunking.py:4-9 | `split_into_chunks(text, chunk_size=200)`: no chunks exactly when the text is all whitespace |
| Chunking.ChunkCount | chunking.py:8-9 | the chunk count is ceil(number of words / chunk size) |
| Chunking.ShortTextOneChunk | chunking.py:8-9 | a text with no words gives no chunk, and a text with at most `chunk_size` words gives one chunk, its normalised text |
| Chunking.ChunksNormalized | chunking.py:9 | every chunk is non-empty with single spaces between words and no edge whitespace |
| Chunking.ChunkWords | chunking.py:8-9 | the words of chunk `j` are the words at positions `j*k` up to `j*k + k` |
| Chunking.ChunksAreGroups | chunking.py:8-9 | the word lists of the chunks are the fixed-size groups of the text's words |
| Chunking.ChunkSizes | chunking.py:9 | every chunk except the last has exactly `chunk_size` words, the last between 1 and `chunk_size` |
| Chunking.FourHundredFiftyWords | chunking.py:4-9 | with the default size 200, a text of 450 words gives three chunks of 200, 200 and 50 words |
| Chunking.ChunksKeepWords | chunking.py:8-9 | concatenating the chunks' word lists in order gives back the text's words |
| Text.Decimal | chunking.py:34 | the decimal form of a number is a non-empty digit string with no leading zero except for 0 itself |
| Text.DecimalRoundTrip | chunking.py:34 | reading a number's decimal form back gives the number |
| Text.DecimalInjective | chunking.py:34 | different numbers have different decimal forms |
| Chunking.ChunkId | chunking.py:34 | `f"{idx}_{i}"`: cutting the id at its first `_` and reading both halves as decimal numbers gives back `idx` and `i` |
| Chunking.ChunkIdInjective | chunking.py:34 | equal ids `"{idx}_{i}"` have equal row index and chunk number |
| Chunking.ChunkTable | chunking.py:24-40 | the list `process_csv` builds; every record's content is a non-empty chunk in whitespace normal form |
| Chunking.ChunkTableOrigins | chunking.py:27-40 | each record is chunk `i` of row `idx`, with id `"{idx}_{i}"`, the row's URL, Content Type, Topic and Sub Topic copied unchanged, and the chunk as content |
| Chunking.OriginsIncrease | chunking.py:27-32 | records come out row by row and chunk by chunk, in strictly increasing (row, chunk) order, so the output is flat and rows are not interleaved |
| Chunking.OriginsComplete | chunking.py:27-32 | every chunk of every row has a record |
| Chunking.ChunkIdsUnique | chunking.py:34 | all ids of one run are pairwise distinct |
| Chunking.ChunkTableStep | chunking.py:27-29 | one more row appends exactly that row's records |
| Chunking.RowRecordsPrefix | chunking.py:32-40 | one more chunk appends exactly that chunk's record |
| Chunking.AppendRowRecords | chunking.py:32-40 | the inner loop appends the row's records, in chunk order, to what was already collected |
| Chunking.ProcessCsv | chunking.py:11-46 | (chunk size 200 unless given) fails with the `ValueError` message naming all five columns exactly when a required column is missing, fails with `AttributeError` exactly when all columns are present and a Content cell is missing, and otherwise returns every row's chunk records in order |

## Left out

- Reading and writing files (`pd.read_csv`, `to_csv`, `json.dump`), the progress `print`s, and the module-level script calls at the end of both files. Tables and record lists are values passed in and returned.
- `validate_url` (clean_csv.py:13-21): it makes a network request and is never called.
- extract.py is not part of this model. It covers fetching with a network client or headless browser, HTML paragraph extraction, and appending to the raw CSV.
- Columns beyond the five: the model's row has exactly these, so `applymap`'s strip of other string columns is not represented.
- Cells of non-string types: every cell is a string or missing, so the `isinstance(x, str)` test of `applymap` always holds. The only column type besides text that the model knows is that of a column with no value (float64).
- Letter case beyond ASCII: `Lower` and `Title` change only `A`–`Z` / `a`–`z`, whereas Python's follow the Unicode tables.
- The DataFrame index: after deduplication the cleaner's index has gaps, but `to_csv(index=False)` drops it and the chunker's `iterrows` numbers the rows it reads from 0. The model's row number is that position.
- Reading an empty cleaned Content back from CSV gives NaN, and `split_into_chunks` then fails. The model represents that NaN as a missing Content cell (`AttributeError`); an empty string gives no chunks.
- Chunking.SplitIntoChunks: requires `chunkSize > 0`; Python's `range` raises `ValueError` for a step of 0 and gives no chunks for a negative step, and neither case is modelled.
- Chunking.ProcessCsv: requires `chunkSize > 0`, for the same reason.
- Cleaning.CleanCsv: a missing column is reported with the missing names of the first step that fails, not with pandas' exact message text.
