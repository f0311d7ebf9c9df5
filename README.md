# CoinAfrique scraper core, modelled in Dafny

This project models the two data-handling functions of the CoinAfrique
listing scraper and proves what they do.

- `scrape_category(url, type_article, page_count=5)` (`scraper.py`) requests
  the listing pages `url?page=1` … `url?page=page_count` one after another.
  It reads every product card on each page into a five-field record
  (`type`, `nom`, `prix`, `adresse`, `image_lien`) and returns the records
  as a table. Any exception ends the whole call: a failed request, an HTTP
  error status, or a card that lacks its title, price or location element,
  its `img` element or that element's `src`. There is no retry, no skipped
  page and no deduplication.
- `clean_data(input_file, output_file)` (`utils.py`) reads a CSV table. It
  drops exact duplicate rows, keeping the first occurrence, then drops rows
  missing `titre` or `prix`. It writes the result and returns it. Every
  exception is swallowed, and an empty frame is returned instead.

Files and modules:

- `wrappers.dfy`, module `Wrappers`: `Option` and `Result`. `None` stands
  for Python's `None` and NaN; `Failure` stands for a raised exception.
- `text.dfy`, module `Text`: Python's `str.strip()`, using the exact
  character set of `str.isspace`, and `str(n)` for the page number, with a
  proved round trip.
- `frames.dfy`, module `Frames`: the pandas pieces the core uses. A table
  is a column list plus rows that map a column to an optional cell. The
  module covers boolean-mask row selection, `drop_duplicates()` with its
  defaults, and `dropna(subset=...)`.
- `scraper.dfy`, module `Scraper`: `ScrapeCategory`, a method with the
  source's page loop. The card loop is the method `AppendCards`.
  `ScrapeCategory` is proved against the specification function
  `ScrapeUpTo`, and `AppendCards` against `CardsRecords`. Lemmas relate
  `ScrapeUpTo` to a plain reference view: the pages a site serves
  (`PageOk`, `PageCards`) and the cards of pages `1..n` (`AllCards`).
- `utils.dfy`, module `Utils`: `clean_data` as pure functions composed in
  sequence, including `os.path.dirname` for the output path.

How I/O appears in the model:

- The network and HTML parsing are one parameter,
  `fetch: string -> Response`. For a page URL it gives either a connection
  failure or the status code together with the cards BeautifulSoup found.
  Each card gives the `.text` of its title, price and location elements,
  when present, and the attribute map of its `img` element.
- `pd.read_csv` is an input `Option<Table>`; `None` means it raised.
- Whether creating the output directory and writing the file succeed is
  the input `storageOk`.
- The URLs requested are returned as `requested`, standing for the GET
  requests and the `print` log.

The code does not retry a request, skip a failed page, stop at an empty
page, tolerate a card with missing fields, deduplicate by fingerprint, or
normalise prices or column names. `scrape_category` aborts on the first
problem. `clean_data` applies only the two row filters. It has no separate
step for fully empty rows: such a row lacks `titre` and `prix`, so `dropna`
removes it (`CleanFrameKeeps`). It does not drop non-positive prices.

Two consequences of the code, both proved:

- The scraper names its title column `nom`, but the cleaner needs `titre`.
  So cleaning a scraped table always hits the KeyError path and returns an
  empty frame (`ScrapedTableCleansToEmpty`).
- `os.makedirs(os.path.dirname(output_file), exist_ok=True)` raises when
  `output_file` has no directory part, because `os.makedirs('')` fails. So
  for a bare file name `clean_data` always returns an empty frame
  (`NoDirectoryGivesEmpty`).

## Model

| member | source | states |
|---|---|---|
| Scraper.ScrapeCategory | scraper.py:5-33 | Requests exactly the URLs of pages 1, 2, … in order, one request each, and no page twice. On success it has requested all `max(page_count, 0)` pages (none when `page_count <= 0`). On failure the failing page is the last one requested. The result is `ScrapeUpTo` for `max(page_count, 0)` pages, turned into a table. |
| Scraper.AppendCards | scraper.py:18-30 | The card loop appends one record per card, in card order, to the records gathered so far. It stops with the error of the first card that lacks a part. |
| Scraper.PageUrlInjective | scraper.py:9 | Two page numbers give the same URL only if they are equal. |
| Scraper.PageUrlsDistinct | scraper.py:8-9 | The URLs of pages `1..k` are pairwise distinct, so no page is fetched twice and nothing is retried. |
| Scraper.FetchCards | scraper.py:12-16 | A page gives cards exactly when the request connects and its status is outside 400-599, the range `raise_for_status` rejects. Otherwise the error names that page. |
| Scraper.CompleteIff | scraper.py:19-22 | A card can be read exactly when its title, price and location elements, its `img` element and that element's `src` attribute are all present. |
| Scraper.MakeRecord | scraper.py:24-30 | A record has exactly the keys `type, nom, prix, adresse, image_lien`, and `type` is `type_article`. |
| Scraper.MakeRecordFields | scraper.py:19-29 | `nom`, `prix` and `adresse` are the stripped element texts, so they neither start nor end with whitespace. `image_lien` is the raw `src` value. |
| Scraper.CardsRecordsSuccess | scraper.py:18-30 | A page's cards give records exactly when every card is complete. There is then one record per card, record i built from card i. |
| Scraper.CardsRecordsFailure | scraper.py:18-22 | A failure on a page names the first incomplete card and the first missing part, in the order lines 19-22 read them. All earlier cards are complete. |
| Scraper.CardsRecordsSnoc | scraper.py:18-30 | Reading one more complete card appends exactly its record. |
| Scraper.CardsRecordsStop | scraper.py:19-22 | Reading an incomplete card raises for that card. |
| Scraper.CardsFailurePersists | scraper.py:18-22 | Once a card has raised, the cards after it are never read. The page's error stays that card's error. |
| Scraper.ScrapeFailurePersists | scraper.py:8-13 | Once a page has raised, later pages change nothing. The scrape of any larger page range fails with the same error. |
| Scraper.PageRecordsSuccess | scraper.py:9-30 | One page gives records exactly when it answers with an accepted status and all its cards are complete. |
| Scraper.AllReadableStep | scraper.py:8-30 | Pages `1..n` are readable exactly when pages `1..n-1` are and page n answers and has only complete cards. |
| Scraper.ScrapeSuccessIff | scraper.py:8-30 | A scrape of n pages succeeds exactly when every page 1..n answers with an accepted status and every card on them is complete. |
| Scraper.ScrapeRecords | scraper.py:6-30 | On success the records follow page order, then card order. Their count is the total number of cards, and record i is built from card i of the concatenated pages. Nothing is removed or deduplicated. |
| Scraper.ScrapeFailureIsFirst | scraper.py:8-22 | A failure names a page within 1..page_count, and every earlier page was fully readable. It also says what went wrong on that page: no connection, a rejected status, or the first incomplete card and its first missing part. |
| Scraper.PageUrls | scraper.py:8-9 | The URL list for k pages has k entries, and entry i is the URL of page i + 1. |
| Scraper.ToFrame | scraper.py:24-32 | `pd.DataFrame(all_data)` has one row per record and only record keys as columns. When every record has exactly the five keys, the table is well formed, its columns are those keys in dictionary order (none when there is no record), and every cell holds its record's field. |
| Scraper.ScrapedFrame | scraper.py:5-33 | The returned table is well formed, with one row per card in crawl order. Each cell of row i is the field of card i's record, present, with `type` equal to `type_article`. |
| Text.StripSlice | scraper.py:19-21 | `strip()` returns a contiguous slice of the text that neither starts nor ends with whitespace. Everything it removed is whitespace. |
| Text.StripIdempotent | scraper.py:19-21 | Stripping a stripped text changes nothing. |
| Text.TrimStartSuffix | scraper.py:19-21 | The left strip keeps the longest suffix that does not start with whitespace. |
| Text.TrimEndPrefix | scraper.py:19-21 | The right strip keeps the longest prefix that does not end with whitespace. |
| Text.NatToString | scraper.py:9 | `str(page)` is a non-empty string of decimal digits with no leading zero. |
| Text.DecimalValueOfNatToString | scraper.py:9 | Reading `str(page)` back as a decimal number gives `page`. |
| Text.NatToStringInjective | scraper.py:9 | Different page numbers print differently. |
| Frames.Select | utils.py:10-11 | A row filter never gives more rows than it was given. |
| Frames.SelectAt | utils.py:10-11 | A mask selection is the input read at the true positions of the mask, in increasing order. |
| Frames.SelectAll | utils.py:10-11 | A mask that keeps everything returns the rows unchanged. |
| Frames.DropDuplicatesKeepsFirst | utils.py:10 | `drop_duplicates()` keeps exactly the rows that equal no earlier row (missing equals missing). It keeps them in their original relative order. |
| Frames.DropDuplicatesUnique | utils.py:10 | After `drop_duplicates()` no two rows are equal. |
| Frames.DropDuplicatesSameRows | utils.py:10 | A row occurs in the deduplicated rows exactly when it occurs in the input. Only repeated copies are dropped. |
| Frames.DropDuplicatesOfUnique | utils.py:10 | Rows without duplicates are left unchanged. |
| Frames.DropDuplicatesIdempotent | utils.py:10 | Deduplicating twice is deduplicating once. |
| Frames.DropNaExactly | utils.py:11 | A row survives `dropna(subset=...)` exactly when it is an input row with a value in every subset column. |
| Frames.DropNaOfComplete | utils.py:11 | Rows complete in the subset columns are left unchanged. |
| Frames.UniqueSubsequence | utils.py:10-11 | Filtering rows that have no duplicates leaves rows that have none either. |
| Frames.SelectWellFormed | utils.py:10-11 | Row selection keeps a well-formed table well formed. |
| Utils.DirNameEmptyIff | utils.py:13 | `os.path.dirname(p)` is empty exactly when `p` contains no '/'. |
| Utils.CleanData | utils.py:4-18 | The returned frame is the frame written to the output file. When nothing was written, the returned frame is empty. |
| Utils.CleanFrameFailsIff | utils.py:11 | The two cleaning steps raise exactly when the table lacks a `titre` or a `prix` column. |
| Utils.MissingColumnGivesEmpty | utils.py:11-18 | Without a `titre` or `prix` column the error is caught: an empty frame is returned and nothing is written. |
| Utils.NoDirectoryGivesEmpty | utils.py:6-18 | A failed read, an output path with no directory part, or a failed directory creation or write also gives an empty frame and saves nothing. |
| Utils.CleanDataSucceeds | utils.py:6-15 | With both columns present, a directory in the output path and working storage, the cleaned table is both returned and written. |
| Utils.SubsequenceCompose | utils.py:10-11 | Applying one row filter after another still gives rows read from the input in increasing order. |
| Utils.CleanFrameSubsequence | utils.py:7-14 | Cleaning keeps the column list unchanged. Its rows are a subsequence of the input rows, each one unchanged: nothing is renamed or coerced. |
| Utils.CleanFrameUnique | utils.py:10 | A cleaned table holds no two identical rows. |
| Utils.CleanFrameKeeps | utils.py:10-11 | Every cleaned row has a `titre` and a `prix`. A row is in the result exactly when it is an input row that has both. |
| Utils.CleanFrameIdempotent | utils.py:10-11 | Cleaning an already cleaned table gives it back unchanged. |
| Utils.CleanDataIdempotent | utils.py:4-18 | Running `clean_data` again on the table it returned gives the same frame and saves the same table, in every case including the error paths. |
| Utils.CleanFrameWellFormed | utils.py:10-11 | Cleaning keeps a well-formed table well formed. |
| Utils.ScrapedTableCleansToEmpty | utils.py:11 | A table built from records with the scraper's five keys has column `nom`, not `titre`. Cleaning it therefore always returns an empty frame and writes nothing. |
| Text.IsSpace | scraper.py:19-21 | Defines the whitespace set `.strip()` removes: exactly the characters Python's `str.isspace` accepts. `Text.StripSlice`, `Text.TrimStartSuffix` and `Text.TrimEndPrefix` are stated over it. |
| Text.Strip | scraper.py:19-21 | Defines `.strip()` as a left strip followed by a right strip; its meaning is proved in `Text.StripSlice` and `Text.StripIdempotent`. |
| Scraper.PageUrl | scraper.py:9 | Defines `f"{url}?page={page}"`; injectivity is proved in `Scraper.PageUrlInjective`. |
| Scraper.RaisesForStatus | scraper.py:13 | Defines when `raise_for_status()` raises: statuses 400 to 599; used by `Scraper.FetchCards`. |
| Scraper.MissingIn | scraper.py:19-22 | Defines the first part whose absence raises, in the order the four `product.find` reads take them; characterised by `Scraper.CompleteIff`. |
| Scraper.CardsRecords | scraper.py:18-30 | Defines the card loop's result for one page; characterised by `Scraper.CardsRecordsSuccess` and `Scraper.CardsRecordsFailure`, implemented by `Scraper.AppendCards`. |
| Scraper.PageRecords | scraper.py:9-30 | Defines one iteration of the page loop; characterised by `Scraper.PageRecordsSuccess`. |
| Scraper.ScrapeUpTo | scraper.py:6-30 | Defines `all_data` after pages `1..n`, or the exception that ended the loop; characterised by `Scraper.ScrapeSuccessIff`, `Scraper.ScrapeRecords` and `Scraper.ScrapeFailureIsFirst`, implemented by `Scraper.ScrapeCategory`. |
| Frames.DropDuplicates | utils.py:10 | Defines `drop_duplicates()` as selection by the first-occurrence mask; proved in `Frames.DropDuplicatesKeepsFirst`, `Frames.DropDuplicatesUnique`, `Frames.DropDuplicatesSameRows` and `Frames.DropDuplicatesIdempotent`. |
| Frames.DropNa | utils.py:11 | Defines `dropna(subset=...)` as selection by the completeness mask; proved in `Frames.DropNaExactly` and `Frames.DropNaOfComplete`. |
| Utils.DirName | utils.py:13 | Defines POSIX `os.path.dirname`; its empty case is proved in `Utils.DirNameEmptyIff`. |
| Utils.CleanFrame | utils.py:10-11 | Defines the two cleaning steps and their KeyError; proved in `Utils.CleanFrameFailsIff`, `Utils.CleanFrameSubsequence`, `Utils.CleanFrameUnique`, `Utils.CleanFrameKeeps` and `Utils.CleanFrameIdempotent`. |
| Utils.CleanStep | utils.py:6-15 | Defines the `try` body with each way it can raise (read, missing column, directory or write); its cases are proved in `Utils.MissingColumnGivesEmpty`, `Utils.NoDirectoryGivesEmpty` and `Utils.CleanDataSucceeds`. |

## Left out

- HTTP (`requests.get`, timeouts, redirects) and HTML parsing (BeautifulSoup, `find`/`find_all` by CSS class, `.text`) are replaced by the `fetch` parameter. It gives a page's status code and its already-parsed cards. The site is taken to be a fixed snapshot: one URL, one answer.
- The AttributeError, TypeError and KeyError raised while reading a card carry no page or card number; `ScrapeError` records the page and the card index so that the properties can name where the scrape stopped. The request errors are modelled by page number rather than by the URL and message requests puts in them.
- Scraper.ToFrame: models `pd.DataFrame` only for records keyed by the five record keys. Those are the only records `scrape_category` builds. Keys outside that set would become extra columns in pandas.
- Utils.CleanData / Utils.CleanDataIdempotent: a table has no row index. `drop_duplicates` and `dropna` keep the survivors' original index labels, so the frame `clean_data` returns can have gaps in its index, while the file written with `index=False` reads back numbered from 0. "The same frame" therefore means the same columns and cells in the same order, not the same index.
- `pd.read_csv` is an input. Its type inference (numbers, `NA` strings) and the CSV encoding are not modelled. Cells are optional strings, and a missing cell is `None`.
- `os.makedirs` and `to_csv` are reduced to the `storageOk` flag and the empty-directory case. The file contents and the `utf-8-sig` encoding are not modelled. `os.path.dirname` is the POSIX version.
- `print` calls (scraper.py:10, utils.py:17) have no effect on data.
- The `strip()` model uses Python's whitespace set. Text is a sequence of code points, with no Unicode normalisation.
- app.py is user-interface glue (Streamlit widgets, file download, the Kobotools link) and is not part of this model. That includes its category label and file-name one-liners. `display_dashboard`, imported by app.py, has no definition in utils.py.
- `page_count` is an integer in the model. A non-integer argument, which raises `TypeError` in `range`, is not modelled.
