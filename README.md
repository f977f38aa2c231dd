# Documentation scraper: text cleaning and record assembly

This project models the logic of `scraper.py`, a script that drives a headless
browser over five sections of the React documentation and five sections of
the AWS Lambda developer guide, and writes one record per scraped section to
`documentation.json`.

The model has three modules:

- `TextClean` (`text_clean.dfy`): the two text normalisers. `CleanTextAws` is
  `clean_text_aws`: every whitespace run becomes one `' '`, then the ends are
  stripped. It is proved equal to an independent reference, `' '.join(text.split())`,
  written as `Join(Words(text), " ")`. `CleanTextPreNfkc` is `clean_text` up to its NFKC call: newlines and
  the two-character text backslash-`n` become `' '`, the ends are stripped, and
  the replacement chain runs. `CleanText` applies a given `nfkc` function to the
  result. Whitespace is `IsSpace`, the set of characters for which Python's
  `str.isspace()` is true. That set is what `\s` matches in a `str` pattern and
  what `str.strip()` removes, and it includes NBSP (U+00A0).
- `DocRecords` (`doc_records.dfy`): the record type and the configured section
  lists. It also holds `SectionRecords`, the rule that decides which sections
  become records. Each section's browser work is an input `SectionOutcome`:
  the section failed (link not found, timeout, any other exception before the
  append), its container is missing, or the container was found with some text
  and the current URL.
- `Scraper` (`scraper.dfy`): `ScrapeReactDocs` and
  `ScrapeAwsLambdaDocs` are the two `for` loops. They append to a list and are
  proved equal to `SiteRecords`. `ScrapeAll` is `main` up to the list it
  serialises.

Facts about the code that a reader might not expect:

- The AWS loop cleans its text with `clean_text` (scraper.py:126), not with
  `clean_text_aws`. Nothing in `scraper.py` calls `clean_text_aws`.
- The React loop has no emptiness test (scraper.py:75-82), so a React record
  can carry an empty section (`EmptyTextSection`). Only the AWS loop drops
  empty text (scraper.py:127).
- `clean_text` collapses no whitespace on lines 38-43: it turns
  `"Hello\nworld\\n  test"` into `"Hello world   test"`, with three spaces
  between the last two words (`CleanTextPreNfkcExample`), and NFKC keeps spaces
  as they are.
- Lines 38-43 of `clean_text` are idempotent (`CleanTextPreNfkcIdempotent`),
  but `clean_text` as a whole, NFKC included, is not (`CleanTextNotIdempotent`).
- The replacements on lines 40-43 decode no escapes, although the comment on
  line 39 says so. In each of the first seven calls the escape (`'\u201c'` and
  so on) already is the one-character string written as the second argument
  (`'“'`, stored in the file as the same code point), so both arguments are the
  same character and the call changes nothing (`ReplaceCharSelf`). Only the
  NBSP-to-space call changes anything (`PunctuationChainIsNbspToSpace`).

## Model

| member | source | states |
|---|---|---|
| `TextClean.IsSpace` | scraper.py:50-51 | definition of whitespace: CPython's `str.isspace()` set, which is what `\s` matches in a `str` pattern and what `strip()` removes, NBSP and U+001C-U+001F included |
| `TextClean.LStrip` | scraper.py:51 | `str.lstrip()`: never lengthens, the result starts with a non-whitespace character (or is empty), and everything removed is whitespace |
| `TextClean.RStrip` | scraper.py:51 | `str.rstrip()`: never lengthens, the result ends with a non-whitespace character (or is empty), and everything removed is whitespace |
| `TextClean.LStripSuffix` | scraper.py:51 | what `lstrip()` leaves is a suffix of its argument |
| `TextClean.RStripPrefix` | scraper.py:51 | what `rstrip()` leaves is a prefix of its argument |
| `TextClean.Strip` | scraper.py:51 | `str.strip()` never lengthens, leaves no whitespace at either end, and changes nothing on an already trimmed text |
| `TextClean.StripEmptyIff` | scraper.py:51 | `str.strip()` gives `""` exactly when the text is empty or all whitespace |
| `TextClean.NonSpaceStrip` | scraper.py:51 | stripping keeps all non-whitespace characters, in order |
| `TextClean.CollapseSpace` | scraper.py:50 | definition of `re.sub(r'\s+', ' ', text)`; its properties are in `CollapseSpaceShape`, `CollapseSpaceWordRun`, `NonSpaceCollapse` and `CleanTextAwsIsJoinOfWords` |
| `TextClean.CollapseSpaceShape` | scraper.py:50 | after the substitution every whitespace character is `' '` and none is next to another; empty stays empty; a leading whitespace stays leading whitespace |
| `TextClean.CollapseSpaceWordRun` | scraper.py:50 | at a word boundary the whole whitespace run after a word becomes exactly one `' '`, and the word and what follows the run are kept |
| `TextClean.CollapseSpaceFixesSingleSpaced` | scraper.py:50 | a text that is already single-spaced passes through the substitution unchanged |
| `TextClean.NonSpaceCollapse` | scraper.py:50 | the substitution keeps all non-whitespace characters, in order |
| `TextClean.CleanTextAws` | scraper.py:48-51 | definition of `clean_text_aws`; its properties are in `CleanTextAwsIsJoinOfWords` and the other `CleanTextAws` lemmas |
| `TextClean.TakeWord` | scraper.py:50 | the longest whitespace-free prefix: every character is non-whitespace, and it ends at the text's end or at a whitespace character |
| `TextClean.TakeWordPrefix` | scraper.py:50 | that word is a prefix of the text |
| `TextClean.WordsAreWords` | scraper.py:48-51 | every word of `str.split()` (`Words`) is non-empty and holds no whitespace |
| `TextClean.CleanTextAwsIsJoinOfWords` | scraper.py:48-51 | `clean_text_aws(text)` equals `' '.join(text.split())`: the words of the text, in order, separated by exactly one `' '` |
| `TextClean.CleanTextAwsIsSingleSpacedAndTrimmed` | scraper.py:48-51 | in the output of `clean_text_aws` every whitespace character is `' '`, no two are adjacent, and no end is whitespace |
| `TextClean.CleanTextAwsEmptyIff` | scraper.py:50-51 | `clean_text_aws` gives `""` exactly for an empty or all-whitespace input (both directions) |
| `TextClean.CleanTextAwsIdempotent` | scraper.py:50-51 | applying `clean_text_aws` to its own output changes nothing |
| `TextClean.CleanTextAwsKeepsNonSpace` | scraper.py:48-51 | `clean_text_aws` changes only whitespace: its output holds all the input's non-whitespace characters, in order |
| `TextClean.CleanTextAwsTwoWords` | scraper.py:48-51 | two words with non-empty whitespace runs before, between and after them become the two words separated by one `' '` |
| `TextClean.CleanTextAwsExample` | scraper.py:48-51 | `clean_text_aws("  multiple   \t\nspaces  ")` is `"multiple spaces"` |
| `TextClean.ReplaceChar` | scraper.py:38 | `str.replace` of one character by another keeps the length; its other properties are in `ReplaceCharAt` and `ReplaceCharConcat` |
| `TextClean.ReplaceCharAt` | scraper.py:38 | a one-character `str.replace` turns each occurrence into the new character, keeps every other character in place, and keeps the length |
| `TextClean.ReplaceCharConcat` | scraper.py:38 | a one-character `str.replace` works on the two halves of a text independently |
| `TextClean.ReplaceCharSelf` | scraper.py:40-43 | replacing a character by itself is the identity |
| `TextClean.ReplaceEscapedNewline` | scraper.py:38 | `replace('\\n', ' ')` never lengthens the text |
| `TextClean.ReplaceEscapedNewlineShape` | scraper.py:38 | after `replace('\\n', ' ')` no backslash-`n` pair is left, and every character of the result is `' '` or a character of the input |
| `TextClean.ReplaceEscapedNewlineFixes` | scraper.py:38 | a text without a backslash-`n` pair passes through `replace('\\n', ' ')` unchanged |
| `TextClean.ReplaceEscapedNewlineConcat` | scraper.py:38 | when the first half does not end in a backslash, `replace('\\n', ' ')` works on the two halves independently |
| `TextClean.StripNewlines` | scraper.py:38 | definition of line 38; its properties are in `StripNewlinesShape` |
| `TextClean.StripNewlinesShape` | scraper.py:38 | line 38 leaves no newline, no backslash-`n` pair and no whitespace at either end, and never lengthens the text |
| `TextClean.PunctuationChain` | scraper.py:40-43 | definition of the eight replacements; their properties are in `PunctuationChainIsNbspToSpace` and `PunctuationChainFixes` |
| `TextClean.PunctuationChainIsNbspToSpace` | scraper.py:40-43 | the eight replacements on lines 40-43 together turn each NBSP into `' '` and leave every other character alone |
| `TextClean.PunctuationChainFixes` | scraper.py:40-43 | without an NBSP, lines 40-43 change nothing |
| `TextClean.CleanTextPreNfkc` | scraper.py:38-43 | definition of `clean_text` before NFKC; its properties are in the `CleanTextPreNfkc` lemmas |
| `TextClean.CleanTextPreNfkcShape` | scraper.py:38-43 | before NFKC, `clean_text` output has no newline, no backslash-`n` pair, no NBSP and no whitespace at either end, and is never longer than the input |
| `TextClean.CleanTextPreNfkcFixes` | scraper.py:38-43 | a trimmed text with no newline, no backslash-`n` pair and no NBSP passes through lines 38-43 unchanged |
| `TextClean.CleanTextPreNfkcIdempotent` | scraper.py:38-43 | applying lines 38-43 to their own output changes nothing |
| `TextClean.CleanTextPreNfkcSeparators` | scraper.py:38-43 | three plain pieces joined by a newline and by a backslash-`n` pair come out joined by one `' '` each, with the pieces themselves unchanged (no whitespace collapsed) |
| `TextClean.CleanTextPreNfkcExample` | scraper.py:38-43 | lines 38-43 turn `"Hello\nworld\\n  test"` into `"Hello world   test"`, with three spaces before `test` |
| `TextClean.PreNfkcOfSpacedMark` | scraper.py:38-43 | lines 38-43 turn a space followed by U+0308 into U+0308 alone |
| `TextClean.CleanText` | scraper.py:36-46 | definition of `clean_text` with NFKC as the parameter `nfkc`; its properties are in `CleanTextNotIdempotent` |
| `TextClean.Cleaner` | scraper.py:36-46 | `clean_text` as the function value both loops apply; its properties are those of `CleanText` |
| `TextClean.CleanTextNotIdempotent` | scraper.py:36-46 | when NFKC maps U+00A8 to a space followed by U+0308 and keeps a lone U+0308, a second pass of `clean_text` changes the output of the first |
| `DocRecords.SourceId` | scraper.py:79-130 | definition of the `"source"` value of a record: `"react"` (line 79) or `"aws_lambda"` (line 130) |
| `DocRecords.Titles` | scraper.py:102-110 | the titles of the configured AWS `(title, xpath)` pairs (constant `AwsSections`, lines 102-108, beside `ReactSections` for lines 60-66), as the tuple unpacking on line 110 takes them: same length, and title i is the first component of pair i |
| `DocRecords.Emits` | scraper.py:75-127 | definition of whether a section yields a record: React when the article exists (line 75), AWS when the container exists and its cleaned text is non-empty (lines 125-127); its properties are in `EmittedExactlyWhen` |
| `DocRecords.RecordOf` | scraper.py:77-133 | definition of the appended dictionary (lines 77-82 and 128-133); its properties are in `SectionRecordsShape` |
| `DocRecords.SectionRecords` | scraper.py:68-141 | both section loops (lines 68-86 and 110-141) never yield more records than there are sections |
| `DocRecords.SiteRecords` | scraper.py:55-151 | definition of one site's list, empty when the outer `try` (lines 55-58, 91-93 and 97-100, 149-151) catches a failed start page; its properties are those of `SectionRecords` |
| `DocRecords.SectionRecordsShape` | scraper.py:75-135 | in both loops (lines 75-82 and 125-135) every record has the site's source id, exactly one section and a configured title; on the AWS site that section is not empty |
| `DocRecords.SectionRecordsSelect` | scraper.py:110-141 | the records are the emitting sections in configured order: a strictly increasing choice of section indices, record k built from section idx[k], and a section chosen exactly when it emits |
| `DocRecords.SectionRecordsCount` | scraper.py:110-137 | the number of records is the number of emitting sections |
| `DocRecords.EmittedExactlyWhen` | scraper.py:74-135 | in both loops (lines 74-82 and 123-135), with distinct titles, a record titled after section i exists exactly when section i's container was found (React) or found with non-empty cleaned text (AWS) |
| `DocRecords.AllSectionsEmit` | scraper.py:110-137 | when every section emits, there is one record per section, with the configured titles in order |
| `DocRecords.OneMissingContainer` | scraper.py:123-137 | a single missing container, with every other section emitting, costs exactly one record |
| `DocRecords.EmptyTextSection` | scraper.py:75-82 | a found container with empty cleaned text yields a React record whose section is `""`, and no AWS record |
| `DocRecords.CombinedOrder` | scraper.py:159 | in the combined list record k has source `react` exactly when k is below the number of React records, and `aws_lambda` otherwise |
| `DocRecords.ConfiguredTitlesDistinct` | scraper.py:60-108 | each site has five configured section titles, all distinct (lines 60-66 and 102-108) |
| `Scraper.ScrapeReactDocs` | scraper.py:53-93 | the React loop returns exactly the `SiteRecords` of its outcomes (empty when the start page failed): at most five records, each with source `react` and one section; when the start page loaded, a record titled after configured section i exists exactly when that section's article was found |
| `Scraper.ScrapeAwsLambdaDocs` | scraper.py:95-151 | the AWS loop returns exactly the `SiteRecords` of its outcomes: at most five records, each with source `aws_lambda` and one non-empty section; when the start page loaded, a record titled after configured section i exists exactly when that section's container was found with non-empty cleaned text |
| `Scraper.ScrapeAll` | scraper.py:153-159 | `main`'s list is the React records followed by the AWS records, both cleaned with `clean_text`: at most ten records, React ones first |

## Left out

- Browser set-up and teardown (`setup_driver`, `driver.quit`), navigation, clicks, `WebDriverWait` and `time.sleep` are browser I/O and timing. Each section's result is the input `SectionOutcome`. A start page that fails to load is the input `rootLoaded = false`.
- BeautifulSoup parsing and `get_text()` belong to an HTML library. The container's text is a string inside `SectionOutcome.ContainerFound`.
- `unicodedata.normalize('NFKC', ...)` needs the Unicode tables, so it is the function parameter `nfkc`, about which nothing is assumed. `CleanTextNotIdempotent` assumes only two facts of real NFKC, as its preconditions.
- An exception raised after a record was appended (in `driver.back()` or `time.sleep`) leaves the record in the list. The model folds this case into `ContainerFound`, since the list is the same.
- JSON serialisation, the file write and every `logging` call are output side effects only.
- The exception handling in `main` is left out. When `setup_driver` raises, the `finally` clause reads an unbound `driver`. This is runtime behaviour and has no list to describe.
- The two loop methods take the text cleaner as a parameter `clean`, which `ScrapeAll` sets to `clean_text` (`TextClean.Cleaner`). Their contracts hold for any cleaner.
