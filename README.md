# Gutenberg crawler: a verified model of its decision logic

This project models the two scripts that build a corpus of English novels from Project
Gutenberg: `gutenberg/crawl.py` and `gutenberg/tsvtotxt.py`.

`gutenberg/crawl.py` walks the catalogue's search pages, which are sorted by downloads. For
every new book ID it downloads the catalogue page and keeps English books only. It then probes
a fixed list of file URLs until one yields text, and collects one record per book. Its
`clean_text` sanitiser cleans the text.

`gutenberg/tsvtotxt.py` writes each record's text to `texts/<ID>_<title>.txt`.

The model keeps every decision these scripts make and replaces their I/O by inputs:

- **Transport** (`transport.dfy`): the retry loop of `fetch_text`.
  - The network is an oracle `Network = (url, attempt) -> Outcome`.
  - An outcome is a response (a status and a body that either decoded as UTF-8 or is raw bytes), a timeout, or any other error.
  - A fetch yields the text, the list of sleeps it took, and the number of attempts.
  - `Backoffs` is an independent reference definition of those sleeps.
- **Locator** (`locator.dfy`): the 77 candidate URLs of `get_book_data`, in probing order.
  - `FirstHit` is the "first non-empty fetch" search over them.
  - The imperative `GetBookData` keeps the source's nested loops and early returns.
- **Bibliography** (`bibliography.dfy`): the row loop of `get_book_metadata`, over rows `(header?, cell?)` given by a parser parameter.
  - It includes the "first run of four digits" scan and Python's `strip`.
- **Orchestrator** (`orchestrator.dfy`): `download_books`, that is, the ID extraction, the English filter and the record built.
- **IndexWalker** (`index_walker.dfy`): the `while True` loop of `get_books_list`.
  - It is a `class Crawler` whose fields are `processed_books`, `books` and `index_url`, plus a flag for the `break`.
  - Its methods are proved against the pure step `NextState`, and the properties of the walk are proved about the walk itself.
- **TextCleaning** (`text_cleaning.dfy`): the three substitutions of `clean_text`, and the order in which they were evidently meant to run.
- **TextFiles** (`text_files.dfy`): the file name built from a title and the per-row loop of `save_texts_to_files`.
  - The loop is modelled twice: as the code is written, and with each row's failure kept to that row.
- `strings.dfy` and `wrappers.dfy` hold the few Python string operations used, and `Option`.

## Model

| member | source | states |
|---|---|---|
| Transport.FetchFrom | gutenberg/crawl.py:21-43 | Models the attempt loop of `fetch_text` from a given attempt on: the text, the sleeps and the attempt count. Its properties are in `FetchFromSpec` and `FetchSpec` |
| Transport.Fetched | gutenberg/crawl.py:21-43 | Models what `fetch_text` returns; `FetchSpec` states its contract |
| Transport.Backoffs | gutenberg/crawl.py:41-42 | Independent reference for the sleeps: `2 ** j` after each failed attempt j that timed out or raised, when `j < retries - 1`. `FetchFromSleeps` ties `FetchFrom` to it |
| Transport.Latin1 | gutenberg/crawl.py:30-33 | The ISO-8859-1 fallback is total and keeps the length; each byte becomes the character with that code point |
| Transport.Latin1Injective | gutenberg/crawl.py:33 | Different byte strings decode to different texts |
| Transport.FetchFromAttempts | gutenberg/crawl.py:24-43 | From any attempt on, no more than three attempts in all; a result needs at least one attempt; without a result every remaining attempt was made |
| Transport.FetchFromText | gutenberg/crawl.py:24-36 | From attempt k on, there is a text iff some later attempt got status 200; the text is the body of the first such attempt, and every earlier attempt failed |
| Transport.FetchFromSleeps | gutenberg/crawl.py:36-42 | The sleeps from attempt k on are exactly the reference backoffs of the attempts made |
| Transport.FetchFromSpec | gutenberg/crawl.py:24-43 | The three facts above together |
| Transport.FetchSpec | gutenberg/crawl.py:21-43 | 1 to 3 attempts; text iff some attempt got 200, and then it is the decoded body of the first one; None only after all three attempts; sleeps equal `Backoffs` |
| Transport.SleepSchedule | gutenberg/crawl.py:41-42 | The sleeps are one of [], [1], [2], [1, 2]: never a 4 and never a sleep after the third attempt |
| Transport.BadStatusesNeverSleep | gutenberg/crawl.py:34-36 | Three non-200 responses give None with no sleep, because `continue` skips the backoff |
| Transport.ThreeTimeouts | gutenberg/crawl.py:37-43 | Three timeouts give None after sleeping 1 and then 2 |
| Transport.ResumeAfter | gutenberg/crawl.py:24-42 | A failed attempt followed by its backoff (if any) leaves the rest of the fetch unchanged; this is the loop invariant of `FetchText` |
| Transport.FetchText | gutenberg/crawl.py:21-43 | The attempt loop with its early return returns exactly the text, sleeps and attempt count of the reference fetch |
| Locator.FileUrl | gutenberg/crawl.py:47-54 | Models the f-strings of the file URLs under `https://www.gutenberg.org/files/{book_id}`; `NoImagesUrl` relates its two forms |
| Locator.ExtensionUrls | gutenberg/crawl.py:53-59 | Models the URLs probed for one extension: the "no images" variant first for EPUB and HTML. `VersionUrlsOfFive` spells them out |
| Locator.VersionUrls | gutenberg/crawl.py:51-64 | Models the extension loop's URLs for one version; `VersionUrlsAreSevenForms` gives their order |
| Locator.VersionedUrls | gutenberg/crawl.py:50-64 | Models the URLs of versions 0..n-1; `VersionedUrlsLayout` gives their layout |
| Locator.CandidateUrls | gutenberg/crawl.py:46-80 | Models every URL `get_book_data` may probe, in order; `CandidateLayout` states the 77 URLs |
| Locator.FirstHit | gutenberg/crawl.py:55-64 | Models the short-circuiting search with its early returns; `FirstHitSpec` states its contract |
| Locator.ContentOf | gutenberg/crawl.py:46-83 | Models what `get_book_data` returns; `ContentOfSpec` and `GetBookData` state its properties |
| Locator.NoImagesUrl | gutenberg/crawl.py:52-54 | The "no images" URL is the file URL of the extension with `.noimages` appended |
| Locator.VersionUrlsOfFive | gutenberg/crawl.py:51-62 | Five extensions, of which only the first two have a "no images" variant, give seven URLs in order: each variant just before its plain file |
| Locator.VersionUrlsAreSevenForms | gutenberg/crawl.py:49-62 | One version is probed as epub.noimages, epub, html.noimages, html, pdf, txt, txt.utf8 |
| Locator.VersionedUrlsLayout | gutenberg/crawl.py:50-64 | Versions 0..n-1 give 7n URLs, block i being the seven forms of `-i` |
| Locator.CandidateLayout | gutenberg/crawl.py:46-80 | Exactly 77 candidates: the seven forms of version 0, of 1, and so on up to 9, then the seven forms without a version |
| Locator.FirstHitSpec | gutenberg/crawl.py:55-64 | The first candidate with non-empty text is returned and nothing after it is probed; None iff every candidate fetched None or "", and then all were probed |
| Locator.MissesThenHit | gutenberg/crawl.py:55-62 | If candidates 0..n-1 miss and candidate n hits, the answer is candidate n's text after n+1 probes |
| Locator.AllMisses | gutenberg/crawl.py:82-83 | If every candidate misses, the answer is None after probing all of them |
| Locator.ContentOfSpec | gutenberg/crawl.py:46-83 | The book has content iff some candidate yields non-empty text, and content is never "" |
| Locator.ProbeExtension | gutenberg/crawl.py:53-64 | One extension probes its "no images" variant and then its plain file, stopping at the first fetch with text; only its own URLs are added |
| Locator.ProbeVersion | gutenberg/crawl.py:51-64 | The extension loop of one version either finds the search's answer or misses on every URL of that version |
| Locator.GetBookData | gutenberg/crawl.py:46-83 | The nested loops with early returns give the answer of `FirstHit` over the 77 candidates, having probed exactly its prefix |
| Bibliography.ApplyRow | gutenberg/crawl.py:95-102 | Models one iteration of the row loop; `ApplyRowYear` states its year part |
| Bibliography.ApplyRows | gutenberg/crawl.py:94-102 | Models the row loop over the `bibrec` rows; `YearUnchanged`, `YearFromLastRow`, `LanguageUnchanged` and `LanguageFromLastRow` state what it leaves |
| Bibliography.MetadataOf | gutenberg/crawl.py:86-103 | Models what `get_book_metadata` returns: the defaults without text or table, otherwise the rows applied to the defaults. `YearIsFourDigits` and `GetBookMetadata` state its properties |
| Bibliography.FirstFourDigitsFrom | gutenberg/crawl.py:98 | The leftmost position from `from` where four ASCII digits start, or None when there is none |
| Bibliography.YearIn | gutenberg/crawl.py:98-100 | There is a match iff the cell holds four consecutive digits, and the match is the cell's text at the leftmost such run |
| Bibliography.YearUnchanged | gutenberg/crawl.py:97-100 | Without a "Release Date" row whose cell holds four digits, the year stays as it was |
| Bibliography.YearFromLastRow | gutenberg/crawl.py:94-100 | Otherwise the year comes from the last such row: later rows overwrite earlier ones |
| Bibliography.LanguageUnchanged | gutenberg/crawl.py:101-102 | Without a "Language" row the language stays as it was |
| Bibliography.LanguageFromLastRow | gutenberg/crawl.py:94-102 | Otherwise the language is the stripped cell of the last "Language" row, a missing cell counting as "" |
| Bibliography.ApplyRowYear | gutenberg/crawl.py:97-100 | A row sets the year iff it is a "Release Date" row with a four-digit run, and it sets it to that run |
| Bibliography.YearIsFourDigits | gutenberg/crawl.py:88-100 | Starting from the defaults, the year is "Unknown" or four digits, whatever the rows |
| Bibliography.GetBookMetadata | gutenberg/crawl.py:86-103 | The dictionary updated in the row loop ends as the reference metadata: the defaults when the fetch has no text or there is no `bibrec` table |
| Strings.Contains | gutenberg/crawl.py:97 | Models Python's `sub in s`; `ContainsIff` states its meaning |
| Strings.TrimStart | gutenberg/crawl.py:102 | Models `lstrip`; `TrimStartSpec` states its meaning |
| Strings.TrimEnd | gutenberg/crawl.py:102 | Models `rstrip`; `TrimEndSpec` states its meaning |
| Strings.Strip | gutenberg/crawl.py:102 | Models `strip`; `StripSpec` states its meaning |
| Strings.LastSegment | gutenberg/crawl.py:107 | Models `split('/')[-1]`; `LastSegmentSpec` states its meaning |
| Strings.ContainsIff | gutenberg/crawl.py:97 | Python's `sub in s` holds iff `sub` occurs in `s` at some index |
| Strings.TrimStartSpec | gutenberg/crawl.py:102 | `lstrip` drops a run of leading whitespace and nothing else |
| Strings.TrimEndSpec | gutenberg/crawl.py:102 | `rstrip` drops a run of trailing whitespace and nothing else |
| Strings.StripSpec | gutenberg/crawl.py:102 | `strip` is the slice between the leading and the trailing whitespace; it starts and ends with a non-space |
| Strings.LastSegmentSpec | gutenberg/crawl.py:107 | `split('/')[-1]` is the suffix after the last '/', holds no '/', and is all of the text when there is no '/' |
| Strings.AsciiLower | gutenberg/crawl.py:109 | Lower-casing keeps the length and folds each character on its own |
| Strings.LowerEqualsIff | gutenberg/crawl.py:109 | `s.lower() == t` for a lower-case ASCII `t` holds iff each character of `s` is that of `t` in either case |
| Orchestrator.BookId | gutenberg/crawl.py:107 | Models `book.a['href'].split('/')[-1]`; `LastSegmentSpec` states its meaning |
| Orchestrator.IsEnglish | gutenberg/crawl.py:109 | Models `metadata['language'].lower() == 'english'`; `EnglishIff` states its meaning |
| Orchestrator.RecordFor | gutenberg/crawl.py:106-123 | Models what `download_books` returns; `RecordForSpec` states its contract |
| Orchestrator.EnglishIff | gutenberg/crawl.py:109 | The language passes iff it is "english" with each letter in either case |
| Orchestrator.RecordForWhen | gutenberg/crawl.py:108-116 | A record is produced iff the catalogue language is English and some candidate URL yields non-empty text |
| Orchestrator.RecordForFields | gutenberg/crawl.py:107-123 | A record holds the book ID, the title or "No Title", the author or "Unknown Author", the catalogue year, and the non-empty content found |
| Orchestrator.RecordForSpec | gutenberg/crawl.py:106-123 | Both of the above |
| Orchestrator.RecordIdIsBookId | gutenberg/crawl.py:107-118 | A record's ID is the last '/'-segment of the listing's href |
| Orchestrator.UnfetchedCatalogIsDropped | gutenberg/crawl.py:86-111 | A book whose catalogue page yields no text has language "Unknown" and is dropped |
| Orchestrator.DownloadBook | gutenberg/crawl.py:106-123 | Returns the reference record; for a non-English book nothing is probed, otherwise a prefix of the candidates is probed |
| IndexWalker.Schedule | gutenberg/crawl.py:139-144 | Models the scheduling loop over one page; `ScheduleSpec` and `ScheduleSnoc` state its contract |
| IndexWalker.Results | gutenberg/crawl.py:145-146 | Models `gather` followed by the filter on truthy results; `ResultsSpec` and `ResultsSnoc` state its properties |
| IndexWalker.NextState | gutenberg/crawl.py:131-152 | Models one iteration of the `while True` loop; `Pagination` and `StepKeepsConsistent` state its properties |
| IndexWalker.RunFor | gutenberg/crawl.py:131-152 | Models a bounded number of iterations; `AtMostOncePerRun`, `RunKeepsConsistent` and `StuckOnFailedIndexFetch` state its properties |
| IndexWalker.ScheduleProcessed | gutenberg/crawl.py:140-144 | After a page, the processed set is the old one together with every ID on the page |
| IndexWalker.ScheduleDistinct | gutenberg/crawl.py:140-144 | No ID is scheduled twice, not even when a page repeats it |
| IndexWalker.ScheduleIds | gutenberg/crawl.py:140-144 | The scheduled IDs are exactly the page's IDs that had not been processed |
| IndexWalker.ScheduleKeepsOrder | gutenberg/crawl.py:140-143 | The scheduled listings keep the page's order |
| IndexWalker.ScheduleSnoc | gutenberg/crawl.py:140-144 | One more listing is scheduled exactly when its ID was neither processed before nor on the page before it, so of a repeated ID the first listing is kept |
| IndexWalker.ScheduleSpec | gutenberg/crawl.py:139-144 | All four scheduling facts together |
| IndexWalker.ResultsFromTasks | gutenberg/crawl.py:145-146 | Every record comes from a scheduled task, and there are no more records than tasks |
| IndexWalker.ResultsDistinct | gutenberg/crawl.py:141-146 | Tasks with distinct IDs give records with distinct IDs |
| IndexWalker.ResultsSpec | gutenberg/crawl.py:145-146 | Both of the above |
| IndexWalker.ResultsSnoc | gutenberg/crawl.py:145-146 | The records of one more task are the earlier records followed by that task's record, if any: records come in task order |
| IndexWalker.Gather | gutenberg/crawl.py:145-146 | The tasks run one after another, keeping the records found, give the reference results |
| IndexWalker.Pagination | gutenberg/crawl.py:131-152 | A failed or empty index fetch changes nothing; zero listings stops the walk; without "Next" it stops after the page; otherwise the next URL is the site root followed by the href; records are appended |
| IndexWalker.StepTasksSpec | gutenberg/crawl.py:139-144 | One iteration schedules distinct IDs not processed before, and all of them are processed afterwards |
| IndexWalker.StepKeepsConsistent | gutenberg/crawl.py:131-152 | An iteration keeps "every record was scheduled and no two records share an ID" |
| IndexWalker.RunKeepsConsistent | gutenberg/crawl.py:131-152 | So does any number of iterations |
| IndexWalker.AtMostOncePerRun | gutenberg/crawl.py:129-152 | Over any number of iterations, no ID is scheduled twice, none processed at the start is scheduled, and each one scheduled ends up processed |
| IndexWalker.StuckOnFailedIndexFetch | gutenberg/crawl.py:131-133 | When the index fetch keeps failing, the loop never moves on: the state stays the same and the walk does not finish |
| IndexWalker.Crawler.constructor | gutenberg/crawl.py:127-129 | The walk starts from the search URL with nothing processed and no books |
| IndexWalker.Crawler.ScheduleListings | gutenberg/crawl.py:139-144 | The scheduling loop updates `processed_books` in place exactly as `Schedule` says, and touches no other field |
| IndexWalker.Crawler.Step | gutenberg/crawl.py:132-152 | One body of the `while True` loop moves the object's state to `NextState` of the old state |
| IndexWalker.Crawler.Crawl | gutenberg/crawl.py:131-152 | At most `fuel` iterations, ending in the state `RunFor` describes |
| TextCleaning.CollapseNonAscii | gutenberg/crawl.py:158 | Models the first substitution; `CollapseIsAscii`, `CollapseRun`, `CollapseSplit` and `CollapseAround` state its meaning |
| TextCleaning.RemoveControls | gutenberg/crawl.py:159 | Models the second substitution; `RemoveControlsSpec` and `RemoveControlsSplit` state its meaning |
| TextCleaning.ReplaceBreaks | gutenberg/crawl.py:160 | Models the three `replace` calls; `ReplaceBreaksAround` states its meaning |
| TextCleaning.CleanText | gutenberg/crawl.py:156-161 | Models `clean_text` as written; `CleanTextSpec`, `CleanTextIdempotent`, `CleanTextAround`, `CleanTextRun` and `CleanTextDropsControl` state its meaning |
| TextCleaning.CleanTextBreaksFirst | gutenberg/crawl.py:158-160 | The corrected order, with the replacements before the deletion; `CleanTextBreaksFirstSpec` and `CleanTextBreaksFirstAround` state its meaning |
| TextCleaning.CollapseIsAscii | gutenberg/crawl.py:158 | Nothing above U+007F survives the first substitution |
| TextCleaning.CollapseNotLonger | gutenberg/crawl.py:158 | The first substitution never lengthens the text |
| TextCleaning.CollapseKeepsAscii | gutenberg/crawl.py:158 | ASCII text passes through the first substitution unchanged |
| TextCleaning.CollapseRun | gutenberg/crawl.py:158 | A whole run of non-ASCII characters, however long, becomes one space |
| TextCleaning.CollapseFromSplit | gutenberg/crawl.py:158 | Collapsing a concatenation is collapsing each part, the second part knowing how the first ended |
| TextCleaning.CollapseSplit | gutenberg/crawl.py:158 | Runs do not reach across an ASCII character: the text may be cut there and each part collapsed alone |
| TextCleaning.CollapseAround | gutenberg/crawl.py:158 | An ASCII character stays in place, and its two sides are collapsed on their own |
| TextCleaning.RemoveControlsSpec | gutenberg/crawl.py:159 | The second substitution removes every control character, keeps the order of the rest, and never lengthens |
| TextCleaning.RemoveControlsKeeps | gutenberg/crawl.py:159 | Text without control characters passes through unchanged |
| TextCleaning.RemoveControlsSplit | gutenberg/crawl.py:159 | Deleting controls commutes with concatenation |
| TextCleaning.ReplaceCharAbsent | gutenberg/crawl.py:160 | `replace` of a character that does not occur changes nothing |
| TextCleaning.ReplaceBreaksAfterRemoval | gutenberg/crawl.py:159-160 | After the controls are removed, the three replacements find nothing |
| TextCleaning.CleanTextIsTwoSteps | gutenberg/crawl.py:156-161 | In effect `clean_text` is only its first two substitutions |
| TextCleaning.CleanTextSpec | gutenberg/crawl.py:156-161 | The output holds only U+0020..U+007E, is never longer than the input, and keeps the order of what the first substitution leaves |
| TextCleaning.CleanTextKeepsPrintable | gutenberg/crawl.py:156-161 | Printable ASCII text is left exactly as it is |
| TextCleaning.CleanTextIdempotent | gutenberg/crawl.py:156-161 | Cleaning twice is cleaning once |
| TextCleaning.CleanTextAround | gutenberg/crawl.py:156-161 | A printable character stays in place, and each side of it is cleaned on its own |
| TextCleaning.CleanTextRun | gutenberg/crawl.py:158-159 | A run of non-ASCII characters comes out as a single space |
| TextCleaning.CleanTextDropsControl | gutenberg/crawl.py:159-160 | An ASCII control character, line breaks and tabs included, disappears and joins its two sides |
| TextCleaning.CleanTextJoinsLines | gutenberg/crawl.py:159-160 | Two lines of plain text joined by "\n" come out glued together with no separator |
| TextCleaning.ReplaceBreaksAround | gutenberg/crawl.py:160 | A "\r", "\n" or "\t" becomes a space and the two sides are replaced on their own |
| TextCleaning.CleanTextBreaksFirstSpec | gutenberg/crawl.py:158-160 | With the replacements done before the deletion, the output is still printable ASCII and no longer than the input |
| TextCleaning.CleanTextBreaksFirstAround | gutenberg/crawl.py:158-160 | In that order, a line break or tab between two pieces of text becomes one space |
| TextCleaning.CleanTextBreaksFirstKeepsPrintable | gutenberg/crawl.py:158-160 | In that order, printable ASCII text is left exactly as it is |
| TextCleaning.CleanTextBreaksFirstSeparatesLines | gutenberg/crawl.py:160 | In that order, two lines of plain text stay apart, separated by one space |
| TextFiles.KeepAllowed | gutenberg/tsvtotxt.py:17 | Models the comprehension; `KeepAllowedSpec` and `KeepAllowedSplit` state its meaning |
| TextFiles.SanitizeTitle | gutenberg/tsvtotxt.py:17 | Models the comprehension followed by `[:50]`; `SanitizeTitleSpec` states its meaning |
| TextFiles.JoinPath | gutenberg/tsvtotxt.py:18 | Models `os.path.join` on POSIX: a name starting with '/' replaces the directory, and a '/' is inserted unless the directory is empty or already ends with one; `FilePathLayout` states the result for the `texts` directory |
| TextFiles.FilePath | gutenberg/tsvtotxt.py:18 | Models the `file_path` expression; `FilePathLayout` and `CrawledBookFileInDirectory` state its layout |
| TextFiles.RowWrites | gutenberg/tsvtotxt.py:17-20 | Models one row's file: none without a title, otherwise the file at `file_path` holding the text, or nothing when the text is not a string |
| TextFiles.RowReport | gutenberg/tsvtotxt.py:21-23 | Models one row's message in the corrected loop: "Saved" with the path, or "Failed" with the path if it was built |
| TextFiles.Writes | gutenberg/tsvtotxt.py:14-20 | Models the files of the corrected loop in table order; `WritesAppend` and `WritesCount` state its meaning |
| TextFiles.Reports | gutenberg/tsvtotxt.py:14-23 | Models the messages of the corrected loop; `ReportsSpec` states its meaning |
| TextFiles.LatestPath | gutenberg/tsvtotxt.py:18 | Models the value `file_path` holds after some rows: the path of the latest row with a title, unbound before any |
| TextFiles.RunAsWritten | gutenberg/tsvtotxt.py:14-23 | Models the loop as written, `file_path` and all; `RunAsWrittenSpec`, `StaleReport` and `AbortedStays` state its meaning |
| TextFiles.KeepAllowedSpec | gutenberg/tsvtotxt.py:17 | The comprehension keeps only alphanumerics and " _.,", in the title's order |
| TextFiles.KeepAllowedSplit | gutenberg/tsvtotxt.py:17 | Filtering a concatenation is filtering each part; with the definition on one character, every allowed character is kept in place and only disallowed ones go |
| TextFiles.KeepAllowedKeeps | gutenberg/tsvtotxt.py:17 | A title made only of allowed characters loses nothing |
| TextFiles.SanitizeTitleSpec | gutenberg/tsvtotxt.py:17 | At most 50 characters: the first min(50, n) of the n kept characters, all of them allowed, and an order-preserving subsequence of the title |
| TextFiles.SanitizeTitleIdempotent | gutenberg/tsvtotxt.py:17 | Sanitising a sanitised title changes nothing |
| TextFiles.FilePathLayout | gutenberg/tsvtotxt.py:18 | Unless the ID starts with '/', the path is "texts/" + ID + "_" + sanitised title + ".txt" |
| TextFiles.CrawledBookFileInDirectory | gutenberg/tsvtotxt.py:18 | An ID taken from a catalogue href has no '/', so the file lands directly in `texts` |
| TextFiles.ReportsSpec | gutenberg/tsvtotxt.py:14-23 | One report per row, the i-th depending on the i-th row alone |
| TextFiles.WritesAppend | gutenberg/tsvtotxt.py:14-20 | The files of a table are those of its first part followed by those of the rest, so rows are handled in order |
| TextFiles.WritesCount | gutenberg/tsvtotxt.py:14-20 | Every row with a title gets its file, and only those rows do: the i-th file is named after the i-th titled row and holds its text, or nothing when the text is not a string |
| TextFiles.SaveTexts | gutenberg/tsvtotxt.py:14-23 | The loop, with each row's failure kept to that row, writes and reports exactly what the row-by-row reference says |
| TextFiles.RunAsWrittenSpec | gutenberg/tsvtotxt.py:14-23 | As written, the run aborts iff the first row has no title, and then nothing is saved; otherwise the files are those of the row-by-row loop and there is one report per row |
| TextFiles.StaleReport | gutenberg/tsvtotxt.py:22-23 | As written, a later row without a title is reported under an earlier row's file name |
| TextFiles.AbortedStays | gutenberg/tsvtotxt.py:14-23 | Once aborted, later rows change nothing |
| TextFiles.SaveTextsAsWritten | gutenberg/tsvtotxt.py:14-23 | The loop as it stands, with the handler reading `file_path`, ends as `RunAsWritten` says |
| TextFiles.FirstRowWithoutTitle | gutenberg/tsvtotxt.py:17-23 | With a first row without a title, the code as written saves nothing, while the row-by-row loop saves the second book as "texts/2_B.txt" |

## Left out

- Network I/O: the aiohttp session, the 60-second timeout, the User-Agent header and real HTTP are replaced by the `Network` oracle. Whether `response.text()` decodes as UTF-8 is part of the oracle's outcome (`Text` or `Undecodable`).
- The oracle is a function of the URL and the attempt number. The model therefore does not capture two fetches of the same URL seeing different answers, as a re-fetch of a failing index page might in reality.
- `asyncio.sleep` is not executed. The sleeps are returned as a list of durations.
- `asyncio.gather` is modelled as a sequential map. Its results come back in task order, so the records are the same; the interleaving of the downloads is not modelled.
- BeautifulSoup parsing is replaced by two parameters:
  - `BibParser` gives the rows of the `bibrec` table, or None when there is no such table;
  - `PageParser` gives the `li.booklink` listings and the `href` of the "Next" link.
- A listing without an `<a href>` makes the source raise an exception. The model assumes every listing has an href.
- A "Next" anchor without an `href` makes crawl.py:150 raise `KeyError`, which ends the run. `Page.next` has no way to express such an anchor, so the model assumes every "Next" link has an href.
- tqdm progress bars and logging are left out, as side channels only. This includes the `print` calls of `save_texts_to_files`, whose messages become `Report` values.
- `save_to_csv` and the pandas table are left out, and so are `pd.read_excel` of the TSV file, `os.makedirs`, `os.path.exists` and both `__main__` blocks. `save_texts_to_files` takes the table's rows as input, each ID already rendered as a string and a non-string cell as None.
- The file system is not modelled. A file write is recorded as a `Write`. A text that is not a string leaves the opened file empty and is reported as a failure; other OS errors are not modelled.
- The `while True` loop of `get_books_list` need not terminate, because a failing index fetch repeats forever. It is modelled one iteration at a time (`NextState`, `Crawler.Step`) and for any bounded number of iterations (`RunFor`, `Crawler.Crawl`).
- `str.isalnum` follows Unicode, so it is a parameter (`AlnumTest`).
- The regex `\d` is taken as the ASCII digits.
- `str.lower` is modelled as an ASCII fold. It is used only in the comparison with "english", where Python's full lower-casing gives the same answer: no non-ASCII character lower-cases to one of its letters alone.
- `str.strip` uses Python's whitespace set.
- `os.path.join` follows its POSIX behaviour.
- `save_texts_to_files` reads the crawler's table with `read_excel`, although the crawler writes tab-separated text. The model takes the rows as given.
- Two behaviours of the code that a reader might not expect; the model follows the code:
  - `2 ** attempt` with the comment "Exponential backoff" suggests sleeps of 1, 2 and 4. The guard `attempt < retries - 1` (crawl.py:41) lets only 1 and 2 happen (`Transport.SleepSchedule`).
  - A failed index fetch does not end the walk: crawl.py:132-133 fetches the same URL again (`IndexWalker.StuckOnFailedIndexFetch`).

## Findings

| source | as written | input that shows it | evidently intended | confidence | as-written member | corrected member |
|---|---|---|---|---|---|---|
| gutenberg/crawl.py:159-160 | The second substitution deletes every character in U+0000..U+001F, including "\r", "\n" and "\t", so the replacements by spaces on the next line never find anything. | "end\nstart" gives "endstart": the words of two lines are glued together. | Line breaks and tabs become spaces, so "end\nstart" gives "end start" (the replacements run before the deletion). | not executed | TextCleaning.CleanTextJoinsLines | TextCleaning.CleanTextBreaksFirstSeparatesLines |
| gutenberg/tsvtotxt.py:17-23 | A row whose title is not a string raises in the comprehension before `file_path` is assigned. On the first row the handler's f-string then reads an unbound `file_path`, and the `UnboundLocalError` ends the whole loop. | Rows ("1", NaN, "a") then ("2", "B", "b"): nothing is saved, not even the second book. | Each failure stays with its row, so the second book is saved as "texts/2_B.txt" and the loop goes on. | not executed | TextFiles.FirstRowWithoutTitle | TextFiles.SaveTexts |
