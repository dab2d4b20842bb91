# Disease-encyclopedia crawlers, modelled in Dafny

Two crawler scripts collect disease articles from Korean hospital sites:

- `data_py/uni.py` crawls Seoul National University Hospital (SNUH) and writes to a PostgreSQL table.
- `data_py/asan.py` crawls Asan Medical Center and writes CSV files.

Both run the same pipeline between "fetch a page" and "write to a sink":

1. Walk the numbered listing pages until three in a row are empty, or until the page ceiling.
2. Turn each listing entry's href into an absolute URL.
3. Deduplicate the candidates by URL.
4. For each candidate, render its detail page and extract the names and a handful of text fields, each with fallbacks.
5. Hand the results to the sink:
   - SNUH upserts batches of twenty;
   - Asan keeps everything in memory, writes a progress backup every twenty candidates, and saves once at the end.

This project models that pipeline as pure functions over abstract rendered documents and proves what the scripts promise. Each rendered document is a small datatype of optional sections holding already-stripped texts.

| file | module | what it holds |
|---|---|---|
| `common.dfy` | `Common` | `Option`, the `Fetch` outcome of rendering a page, successes/failures of a loop, `Flatten` |
| `text.dfy` | `Text` | `strip`, `split(c)`, `join`, `str.replace`, whitespace `split()`, character replace |
| `names.dfy` | `Names` | the bracket name split both crawlers use |
| `candidates.dfy` | `Candidates` | listing records and the first-occurrence URL deduplication |
| `pagination.dfy` | `Pagination` | the three-empty-pages stop machine over a page oracle |
| `uni_listing.dfy` | `UniListing` | SNUH href rules, listing-page extraction, the full listing crawl |
| `asan_listing.dfy` | `AsanListing` | Asan href rules, detail-link filter, the full listing crawl |
| `fallback.dfy` | `Fallback` | first non-empty tier, empty-to-`None`, paragraph joining |
| `uni_detail.dfy` | `UniDetail` | SNUH detail page: title split, department tiers, symptom tiers |
| `asan_detail.dfy` | `AsanDetail` | Asan detail page: list fields, `"정보 없음"` sentinel, synonym tokens |
| `uni_store.dfy` | `UniStore` | the URL-keyed upsert, rollback, the batch-of-twenty loop |
| `asan_progress.dfy` | `AsanProgress` | the backup cadence and the final save |

Two behaviours of the code are easy to misread. The model follows the code:

- **Single-pass replace.** In `uni.py`, `full_url.replace('/./', '/')` is a single left-to-right pass of Python's `str.replace`, not a repeated collapse. So `/././` becomes `/./` (`UniListing.CollapseSinglePass`).
- **No absolute-URL rule in SNUH.** Only `asan.py` keeps hrefs that start with `http`. `uni.py` has no such rule, so an absolute href is appended to the section base (`UniListing.BareHref`).

## Model

| member | source | states |
|---|---|---|
| Text.Strip | data_py/uni.py:151-152 | the stripped text has no whitespace at either end, is no longer than the input, and uses only the input's characters |
| Text.StripIsInfix | data_py/uni.py:151-152 | the stripped text is the infix that starts after the leading whitespace, and all that is cut on either side is whitespace |
| Text.StripIdempotent | data_py/asan.py:164 | stripping a stripped text changes nothing |
| Text.Before | data_py/uni.py:151 | `split(c)[0]` is the longest prefix free of `c`; it stops just before the first `c`, and is the whole string when `c` is absent |
| Text.After | data_py/uni.py:152 | the string is the part before the first `c`, then `c`, then the rest |
| Text.JoinEmpty | data_py/asan.py:137 | with a non-empty separator, a join is empty exactly when it joins nothing or the single empty string |
| Text.Join | data_py/asan.py:137 | a join of nothing is empty, of one part is that part, and of `n` parts is as long as the parts together plus `n - 1` separators |
| Text.ReplaceUnchangedIff | data_py/uni.py:82 | a replacement shorter than its pattern leaves the string unchanged exactly when the pattern does not occur |
| Text.ReplaceAll | data_py/uni.py:82 | `str.replace` leaves a text without the pattern unchanged, and never lengthens it when the replacement is no longer than the pattern |
| Text.DotSegmentFreePrefix | data_py/uni.py:82 | a prefix with no `/.` that does not end in `/` passes through the `/./` replacement verbatim |
| Text.Words | data_py/asan.py:164 | `split()` yields non-empty, whitespace-free tokens made of characters of the input |
| Text.WordsKeepContent | data_py/asan.py:164 | the tokens concatenate to the input with its whitespace removed |
| Text.WordsSplit | data_py/asan.py:164 | a whitespace character separates: the tokens of `a x b` are those of `a` followed by those of `b` |
| Text.WordsOfWord | data_py/asan.py:164 | a non-empty whitespace-free text is a single token |
| Text.ReplaceCharEffect | data_py/asan.py:164 | replacing `,` by a space leaves no comma, keeps every other character, and changes the text exactly when it holds a comma |
| Names.SplitName | data_py/asan.py:119-121 | without both brackets the name is kept and the alternate is empty; with both, no opening bracket survives in either part and no closing bracket survives in the alternate |
| Names.SplitNameValue | data_py/uni.py:149-152 | with both brackets the primary part is the stripped text before the first opening bracket, and the alternate is the stripped text from there up to the next bracket of either kind or the end; a closing bracket before the first opening one stays in the primary part |
| Names.SplitNameShape | data_py/uni.py:150-152 | `a[b]c`, with `a` free of `[` and `b` free of both brackets, splits into stripped `a` and stripped `b` |
| Names.SplitNameExample | data_py/asan.py:118-121 | the name `Migraine(Hemicrania)` splits into `Migraine` and `Hemicrania` |
| Candidates.Dedup | data_py/uni.py:123-130 | the kept candidates have distinct URLs and form a subsequence of the input; the URL set is unchanged, and each kept candidate is the first with its URL |
| Candidates.DedupDistinct | data_py/asan.py:95-101 | a candidate list with distinct URLs is left unchanged |
| Candidates.DedupIdempotent | data_py/uni.py:123-130 | deduplicating twice equals deduplicating once |
| Pagination.Walk | data_py/uni.py:107-119 | from page `i` the walk never passes the ceiling; it accumulates the records of the pages with data in page order; it stops before the ceiling only on a third empty page in a row, and never earlier |
| Pagination.Paginate | data_py/uni.py:107-119 | the pages fetched never exceed `max_pages`; the records found are those of the fetched pages with data; the walk ends early only on a streak of three empty pages |
| Pagination.StopAfterThreeEmpty | data_py/uni.py:107-119 | when pages `1..p-1` have data and none after does, exactly `min(p+2, max_pages)` pages are fetched |
| Pagination.GatheredFrom | data_py/asan.py:79-91 | every accumulated record comes from one of the pages walked |
| Pagination.CollectAll | data_py/asan.py:79-104 | the crawl's result has distinct URLs and is a subsequence of the records found |
| UniListing.UniUrl | data_py/uni.py:75-82 | every URL built from any href starts with `https://www.snuh.org` |
| UniListing.Collapse | data_py/uni.py:82 | the `/./` replacement never lengthens the URL and changes it exactly when a `/./` occurs |
| UniListing.DotRelativeHref | data_py/uni.py:75-76 | `./x`, with `x` free of dot segments, becomes the section base followed by `x` |
| UniListing.RootRelativeHref | data_py/uni.py:77-78 | a dot-segment-free `/x` becomes the origin followed by `/x` |
| UniListing.BareHref | data_py/uni.py:79-80 | any other dot-segment-free href, an absolute one included, becomes the section base followed by the href, so an `http` href is not kept as it is |
| UniListing.CollapseSinglePass | data_py/uni.py:82 | the collapse is one pass: `/././` becomes `/./` |
| UniListing.ItemRecords | data_py/uni.py:62-88 | there are no records iff no item has a `strong`, a link and a non-empty name; every record is named and carries the page index |
| UniListing.ItemRecordsFrom | data_py/uni.py:62-88 | every record is built from a usable item of the page |
| UniListing.ItemRecordsAppend | data_py/uni.py:62-88 | records come out in item order |
| UniListing.ExtractListing | data_py/uni.py:53-95 | the flag is true iff records were found; a failed page and a page without the container give `([], False)` |
| UniListing.ExtractListingOnSite | data_py/uni.py:74-88 | every record of a listing page points into the site |
| UniListing.CollectCandidates | data_py/uni.py:98-132 | the SNUH candidates have distinct URLs; every one is named, on the site, and from a page within the ceiling |
| AsanListing.AsanUrl | data_py/asan.py:49-56 | an `http` href is kept unchanged; any other lands on the site's origin; every result starts with `http` |
| AsanListing.SitePath | data_py/asan.py:51-56 | every non-absolute href resolves to a root-relative path of the site |
| AsanListing.AsanDotRelativeHref | data_py/asan.py:51-52 | `./x` becomes the origin, then `/asan/healthinfo/disease/`, then `x`, for every `x` |
| AsanListing.AsanRootRelativeHref | data_py/asan.py:53-54 | `/x` becomes the origin followed by `/x` |
| AsanListing.AsanBareHref | data_py/asan.py:55-56 | any other href that does not start with `http` becomes the origin, then the disease directory, then the href |
| AsanListing.AsanKeepsDotSegments | data_py/asan.py:49-56 | no dot-segment clean-up: a `/./` in an href that does not start with `./` is still in the URL |
| AsanListing.AsanUrlIdempotent | data_py/asan.py:49-56 | resolving a resolved URL changes nothing |
| AsanListing.AsanUrlKeepsMarker | data_py/asan.py:35-56 | a URL built from a `diseaseDetail.do` link still contains `diseaseDetail.do` |
| AsanListing.LinkRecords | data_py/asan.py:43-62 | there are no records iff no detail link has non-empty text; every record is named and carries the page index |
| AsanListing.LinkRecordsFrom | data_py/asan.py:43-62 | every record is built from a detail link of the page |
| AsanListing.LinkRecordsAppend | data_py/asan.py:43-62 | records come out in document order |
| AsanListing.ExtractListing | data_py/asan.py:21-68 | the flag is true iff records were found; a failed page and a page without detail links give `([], False)` |
| AsanListing.ExtractListingUrls | data_py/asan.py:35-62 | every record of a listing page is an `http` URL containing `diseaseDetail.do` |
| AsanListing.CollectCandidates | data_py/asan.py:70-104 | the Asan candidates have distinct URLs; every one is named, an `http` detail URL, and from a page within the ceiling |
| Fallback.FirstNonEmpty | data_py/uni.py:171-211 | the chosen text is empty iff every tier is empty, and is otherwise one of the tiers |
| Fallback.FirstNonEmptyPicks | data_py/uni.py:171-211 | a tier is consulted only when all earlier tiers are empty, and the first non-empty tier wins |
| Fallback.NonEmptyTexts | data_py/uni.py:190 | the filter keeps only non-empty texts from the input, and returns nothing iff all texts are empty |
| Fallback.NonEmptyTextsAppend | data_py/uni.py:190 | the filter works text by text, so every non-empty text is kept, in input order |
| Fallback.NonEmptyTextsKeeps | data_py/uni.py:190 | texts that are all non-empty pass the filter unchanged |
| Fallback.ParagraphsEmpty | data_py/uni.py:190-191 | joined paragraphs are empty iff every paragraph is empty |
| UniDetail.DetailNames | data_py/uni.py:147-156 | with no `h3` the listing name is used; a title without both brackets is kept whole; with both, no `[` survives in the primary part and no bracket in the alternate |
| UniDetail.DetailNamesValue | data_py/uni.py:147-152 | a title with both brackets gives the stripped text before its first `[` and the stripped text from there up to the next `[` or `]`, or the end |
| UniDetail.DetailNamesShape | data_py/uni.py:150-152 | a title `kr[eng]rest` gives stripped `kr` and stripped `eng` |
| UniDetail.TooltipDepartment | data_py/uni.py:159-168 | the tooltip tier yields nothing exactly when the row is missing, has no `진료과` label or no `p`, or its `p` holds no link or a single blank one; otherwise it yields the row's joined link texts |
| UniDetail.ScanDepartment | data_py/uni.py:171-182 | with no department row the scan yields nothing |
| UniDetail.ScanDepartmentFirst | data_py/uni.py:172-182 | the scan yields what the first row with a `진료과` label and a `p` yields |
| UniDetail.ScanDepartmentStops | data_py/uni.py:182 | rows after the first department row are never consulted |
| UniDetail.Department | data_py/uni.py:159-182 | the department is the first non-empty of the tooltip tier and the row scan, and `None` iff both are empty |
| UniDetail.SectionSymptoms | data_py/uni.py:185-191 | the section tier yields nothing exactly when the section is missing or every paragraph in it is blank |
| UniDetail.ScanSymptoms | data_py/uni.py:193-203 | with no symptom heading that has paragraphs, the scan yields nothing |
| UniDetail.ScanSymptomsFirst | data_py/uni.py:193-203 | the scan yields the joined paragraphs of the first `h5` mentioning `증상` whose parent `div` has paragraphs |
| UniDetail.DefinitionSymptomsPrefix | data_py/uni.py:205-211 | only the first two definition paragraphs matter |
| UniDetail.DefinitionSymptoms | data_py/uni.py:205-211 | the definition tier yields nothing exactly when the section is missing or its first two paragraphs are blank |
| UniDetail.Symptoms | data_py/uni.py:185-211 | the symptoms are the first non-empty of section, heading scan and definition, and `None` iff all three are empty |
| UniDetail.SymptomsNone | data_py/uni.py:185-217 | symptoms are `None` iff every section paragraph is empty and the other two tiers yield nothing |
| UniDetail.SectionWins | data_py/uni.py:186-191 | one non-empty paragraph in the symptom section decides the field |
| UniDetail.GetDetail | data_py/uni.py:135-225 | there is no record iff the page failed; a record keeps its URL and never holds an empty department or symptom text |
| AsanDetail.ItemsOrText | data_py/asan.py:124-135 | `li` items win whenever there are any, blank ones included; otherwise a non-empty text is the one element; nothing exactly when the section is missing or has neither |
| AsanDetail.LinksOrText | data_py/asan.py:139-151 | link texts win whenever there are any; otherwise a non-empty text is the one element; nothing exactly when the section is missing or has neither |
| AsanDetail.Render | data_py/asan.py:137 | nothing found reads as `정보 없음`; one element is the field itself; two or more start with the first element and hold a comma |
| AsanDetail.RenderSentinel | data_py/asan.py:137 | a field reads `정보 없음` iff nothing was found or the one thing found is that text |
| AsanDetail.RenderEmpty | data_py/asan.py:137 | a field is `""` iff the one thing found is the empty string |
| AsanDetail.MissingSectionIsSentinel | data_py/asan.py:124-153 | a missing section, and one with nothing in it, read as the sentinel |
| AsanDetail.ItemsWin | data_py/asan.py:129-131 | `li` items win over the `dd` text |
| AsanDetail.StripAll | data_py/asan.py:164 | the per-token strip keeps only non-empty tokens with no whitespace at either end |
| AsanDetail.StripAllKeeps | data_py/asan.py:164 | no token that strips to something non-empty is dropped |
| AsanDetail.StripAllOfWords | data_py/asan.py:164 | the per-token strip and filter leaves the words of `split()` unchanged |
| AsanDetail.SynonymTokens | data_py/asan.py:156-164 | every synonym token is non-empty and holds neither whitespace nor a comma |
| AsanDetail.SynonymContent | data_py/asan.py:164 | the tokens keep every character that is neither a comma nor whitespace, in order |
| AsanDetail.SynonymCommaSplits | data_py/asan.py:164 | a comma separates tokens exactly like a space |
| AsanDetail.SynonymsSentinel | data_py/asan.py:156-166 | the synonym field is the sentinel iff there are no tokens |
| AsanDetail.SynonymsNeverEmpty | data_py/asan.py:166 | the synonym field is never `""` |
| AsanDetail.GetDetail | data_py/asan.py:106-198 | there is no record iff the page failed; the URL is kept; a name without both parentheses is kept whole |
| UniStore.Upsert | data_py/uni.py:234-259 | after a batch the table holds exactly the old URLs and the batch's URLs |
| UniStore.UpsertUntouched | data_py/uni.py:238-243 | rows the batch does not mention are unchanged |
| UniStore.UpsertLastWins | data_py/uni.py:238-243 | the last record with a given URL decides all of that URL's columns |
| UniStore.UpsertAppend | data_py/uni.py:259 | upserting `a + b` is upserting `a`, then `b` |
| UniStore.UpsertIdempotent | data_py/uni.py:238-259 | re-applying the same batch changes nothing |
| UniStore.PersistRollback | data_py/uni.py:259-269 | a rejected flush is rolled back and leaves no trace: the table is one upsert of the accepted batches alone, in flush order |
| UniStore.PersistAccepted | data_py/uni.py:313-327 | when every flush is accepted, the flushes together are one upsert of everything flushed |
| UniStore.RunBatches | data_py/uni.py:298-327 | the flushed batches concatenate to the successful details in candidate order; all hold 1 to 20, all but the last exactly 20; successes plus failures equal the candidates; the table is the result of the flushes |
| UniStore.RunAllAccepted | data_py/uni.py:298-327 | with every flush accepted the table is one upsert of all successful details |
| AsanProgress.LastMultiple | data_py/asan.py:268-270 | the last backup point not above `n` is a multiple of twenty less than twenty below `n` |
| AsanProgress.BackupClosedForm | data_py/asan.py:255-271 | after `n` candidates the backup holds exactly the successes among the first `n - n % 20`, and does not exist when there are none |
| AsanProgress.CrashAfterTwentyFive | data_py/asan.py:268-270 | stopping after candidate 25 leaves the successes of the first twenty candidates |
| AsanProgress.BackupIsPrefix | data_py/asan.py:222-229 | every backup is an in-order prefix of the final collection |
| AsanProgress.Harvest | data_py/asan.py:255-287 | the collection is the successes in candidate order; the backup has the closed form above; the final save exists iff something was collected |
| Common.Successes | data_py/uni.py:306-309 | the buffered details are some of the successful outcomes, no more than the outcomes |
| Common.Failures | data_py/uni.py:318-320 | failures and successes add up to the outcomes |

## Left out

- Browser I/O: the Selenium driver, `driver.get`, page URLs with their query strings, and every `time.sleep`. Each rendered page is a `Fetch` value handed in by the caller.
- HTML parsing: BeautifulSoup lookups are replaced by document datatypes that hold what each lookup returns. `get_text(strip=True)` results are given strings.
- UniDetail.UniDetailDoc: `find('div', class_='viewRow tooltipRow')` is taken as a given optional row. The exact class-string match of BeautifulSoup is not modelled.
- Text.IsSpace: whitespace is a declared character class close to Python's `str.isspace`. This is not full Unicode semantics.
- Logging: every `print`, the samples and the statistics of `save_to_csv`.
- The database connection: `connect_db` and the program's exit when it fails, `commit`, `close`, and the `main` catch-all that aborts the whole loop.
- UniStore.Upsert: the `created_at` column is not modelled. The `datetime.now()` and `NOW()` timestamps are clock reads, so re-applying a batch is stated for the other columns only.
- UniStore.WriteBatch: whether a flush was committed is an input (`accept`). A failure before the commit is a rejection and is rolled back. A failure after `conn.commit()` (closing the cursor, or the log line) also returns `False`, but the batch stays stored; the model counts such a flush as accepted, since the rollback then undoes nothing and the source ignores the return value.
- AsanProgress.Backup: every backup write is assumed to succeed. The source swallows any exception from writing the file.
- The CSV file format and its file name, which embeds a timestamp. The final save is modelled as the list of records saved.
- Exceptions inside `get_disease_detail` and `get_disease_list_from_page` are folded into `FetchFailed`, which yields `None` and `([], False)` respectively.
- `main_1020.py`: the query API over the stored data, built from calls into a web framework, SQL and an embeddings service. It is not part of this model.
