# springer_free_books, modelled in Dafny

`springer_free_books` downloads the free Springer textbooks listed in a
catalog spreadsheet. Its core, in `main.py`, has four parts, and each is
modelled here with properties proved about it:

- **`parse_book_url`** is the resolver. It turns a book's landing-page URL
  into a direct download URL and a local file name, for the formats `pdf`
  and `epub`. It first percent-decodes the URL, then rewrites every `book`
  to `content/pdf` or `download/epub`, and appends the extension. The file
  name is the title and the author, with `/` replaced by `_`, and the last
  path segment of the download URL, joined by ` - `.
- **`book_info_from_table`** is the catalog reader. It produces one record
  per catalog row, in row order. In the package name, spaces become `_` and
  commas are dropped.
- **`download_book`** makes the package directory and requests the landing
  page. It then handles the pdf and, when asked, the epub. An existing
  target file is reported as `"exists"`; otherwise the file is fetched, and
  it is written when the reply is 200. The outcome is recorded in the
  book's `success` dict.
- **`download_books`** runs `download_book` on every record of the catalog.

The modules follow these parts:

- `Strings` models the Python string operations used: `str.lower`,
  `str.replace`, `str.translate` and `os.path.split`.
- `Resolver` models `parse_book_url` and `urllib.parse.unquote`.
- `Catalog` models `book_info_from_table`.
- `Downloader` models `download_book` and `download_books`.
- `Wrappers` provides `Option` and `Result`.

The filesystem is a `World`:
- a map from paths to file contents;
- a set of directories;
- the log of every HTTP request made.

The network is an oracle argument, `web(n, url)`. It gives the reply to
request number `n`, after redirects, or `Raised` when `requests.get`
raises.

`Downloader.Machine` is the imperative model. It is a class holding the
files, the directories and the log, with methods for `mkdir`, `exists`,
`get` and `write`. `DownloadBook`, `DownloadAll` and `DownloadBooks` are
methods over `BookRecord` objects whose `success` field they set. Each
method is proved against a functional specification:
- `DownloadBookRun` for one book;
- `BatchRun` for the batch.

The lemmas are stated about those specifications.

Where the system's documented behaviour and its code differ, the model
follows the code:
- **Every `book` is rewritten.** `str.replace` rewrites every occurrence of
  `book` in the decoded URL, not only the first one. This is
  `Strings.ReplaceAll`; the `Resolver.FirstBookRewritten` row below states
  both outcomes.
- **The file name keeps only the last segment.** `%2F` is decoded before
  the URL is split, so everything up to the decoded `/` is dropped and the
  file name ends in what follows it (see
  `Resolver.EncodedSlashEndsFileName`).
- **A failed request ends the book.** Nothing in `download_book` catches
  an exception, so a request that raises ends the book with no `success`
  key. This applies to the landing page and to either format's file. The
  batch goes on with the next book.
- **Sanitisation covers `/` only.** Only `/` is replaced in the title and
  the author.

## Model

| member | source | states |
|---|---|---|
| `Strings.Lower` | main.py:21 | `str.lower` on ASCII: the length is kept and each character is lower-cased on its own |
| `Strings.ReplaceAll` | main.py:26-30 | `str.replace`: definition, left to right and non-overlapping; characterised for every non-empty pattern by `Strings.ReplaceNoMatch` and `Strings.ReplaceFirstMatch` |
| `Strings.LowerIdempotent` | main.py:21 | lower-casing the format a second time changes nothing |
| `Strings.ReplaceNoMatch` | main.py:28-30 | `str.replace` leaves text without the pattern unchanged |
| `Strings.ReplaceFirstMatch` | main.py:28-30 | the first occurrence of the pattern is replaced, the text before it is kept, and the scan resumes right after it |
| `Strings.ReplaceSplit` | main.py:28-30 | text that starts with a character foreign to the pattern splits the replacement into two independent halves |
| `Strings.Translate` | main.py:38-44 | `str.translate` with a one-entry table: the length is kept, the mapped character is replaced and every other character is unchanged |
| `Strings.ReplaceCharIsTranslate` | main.py:66 | replacing one character by one character is a pointwise translation |
| `Strings.ReplaceCharByNothingIsRemove` | main.py:66 | replacing one character by nothing deletes exactly that character |
| `Strings.RemoveChar` | main.py:66 | after removal the character is absent, and every other character keeps its count |
| `Strings.PathTail` | main.py:35 | the tail returned by `os.path.split` contains no `/` |
| `Strings.PathTailIsLastSegment` | main.py:35 | the tail is a suffix of the path, and it is either the whole path or comes right after a `/` |
| `Strings.PathTailAppend` | main.py:33-35 | appending an extension without `/` appends it to the tail too |
| `Resolver.Unquote` | main.py:26 | `urllib.parse.unquote`: the decoded text is never longer than the input; characterised by `Resolver.UnquotePlain`, `Resolver.UnquoteEscape` and `Resolver.UnquoteSplitAtPercent` |
| `Resolver.UnquoteEscape` | main.py:26 | the `%XX` escape of an ASCII character decodes to that character |
| `Resolver.UnquotePlain` | main.py:26 | text without `%` decodes to itself |
| `Resolver.UnquoteSplitAtPercent` | main.py:26 | decoding text that starts with `%` is independent of what precedes it |
| `Resolver.DecodeEncodedSlash` | main.py:26 | `%2F` followed by plain text decodes to a real `/` |
| `Resolver.DownloadUrl` | main.py:26-33 | the download URL of a supported format ends in `"." + format`; characterised by `Resolver.NoBookKeepsUrl` and `Resolver.FirstBookRewritten` |
| `Resolver.FileName` | main.py:35-47 | the file name holds no `/` and ends in the last path segment of the download URL; characterised by `Resolver.FileNameStructure` |
| `Resolver.Resolve` | main.py:26-49 | for `pdf` or `epub`, the download URL ends in the extension, and the file name contains no `/` and ends in the extension |
| `Resolver.ParseBookUrl` | main.py:13-49 | a result exactly when the lower-cased format is `pdf` or `epub`, otherwise the `Unsupported format` error carrying the lower-cased format; the URL and the file name end in the extension, and the file name contains no `/` |
| `Resolver.FormatIsCaseInsensitive` | main.py:21 | the format is matched after lower-casing, so `PDF` resolves exactly like `pdf` |
| `Resolver.NoBookKeepsUrl` | main.py:26-33 | a decoded URL without `book` only gains the extension |
| `Resolver.FirstBookRewritten` | main.py:26-33 | the first `book` becomes `content/pdf` or `download/epub` and later ones are rewritten too; with no later `book`, the rest of the URL is kept as it is |
| `Resolver.Sanitize` | main.py:38-44 | the title or author with `translate({"/": "_"})` applied holds no `/` |
| `Resolver.SanitizeMapsSlashes` | main.py:38-44 | sanitising keeps the length, turns each `/` into `_` and keeps every other character; a title with `/` changes |
| `Resolver.FileNameStructure` | main.py:35-47 | the file name is the sanitised title, the sanitised author and the download URL's last segment, joined by ` - ` |
| `Resolver.EncodedSlashEndsFileName` | main.py:26-47 | for a landing URL ending in `%2F` followed by text with no `%`, no `/` and no `book` (such as `10.1007%2Fb100747`), the file name ends in that text and the extension only |
| `Catalog.NormalizePackage` | main.py:66 | the package name contains no space and no comma |
| `Catalog.NormalizePackageIsTranslateThenRemove` | main.py:66 | the package name is the raw name with spaces translated to `_` and commas removed, and every other character keeps its count |
| `Catalog.BookOfRow` | main.py:63-68 | the dict yielded for one row: definition; characterised by `Catalog.BookInfoFromTableRows` |
| `Catalog.BookInfoFromTable` | main.py:52-68 | one record per row |
| `Catalog.BookInfoFromTableRows` | main.py:58-68 | record `i` has row `i`'s title, author and URL, and its normalised package name |
| `Catalog.BookInfoFromTableAppend` | main.py:62-68 | the reader works row by row: the records of a concatenation are the concatenation of the records |
| `Downloader.ParentOfJoin` | main.py:72 | the parent of `dst / pkg` is `dst` when `pkg` has no `/` |
| `Downloader.MkdirNeedsParent` | main.py:72-73 | `(dst / pkg).mkdir(exist_ok=True)` succeeds exactly when that directory exists, or no file is in the way and `dst` exists |
| `Downloader.DownloadBookNeedsDestination` | main.py:72-73 | a book whose directory and destination are both missing raises before any request and changes nothing |
| `Downloader.MkdirWorld` | main.py:73 | `mkdir(exist_ok=True)`: definition; characterised by `Downloader.MkdirAdds` and `Downloader.MkdirNeedsParent` |
| `Downloader.MkdirAdds` | main.py:73 | a successful `mkdir` adds its directory and changes neither the files nor the log |
| `Downloader.Target` | main.py:82-85 | a format's target file lies directly inside the package directory and ends in the extension, as does its download URL |
| `Downloader.TargetFromParseBookUrl` | main.py:82-101 | the pdf and the epub target are the download URL and file name `parse_book_url` gives for the landing page's final URL, the file placed under the package directory |
| `Downloader.DifferentExtensions` | main.py:85-101 | no path ends in both `.pdf` and `.epub` |
| `Downloader.TargetsDiffer` | main.py:82-101 | the pdf and the epub target of a book are different files |
| `Downloader.FetchAsset` | main.py:87-111 | the per-format decision of `download_book` (lines 87-95 for the pdf, 103-111 for the epub): definition; characterised by `Downloader.FetchAssetStatus`, `Downloader.FetchAssetFetches` and `Downloader.FetchAssetWritesTarget` |
| `Downloader.FormatStep` | main.py:82-95 | one format with its target resolved: definition; `Downloader.Machine.DownloadFormat` is proved equal to it |
| `Downloader.FetchAssetStatus` | main.py:87-95 | `"exists"` exactly when the target exists, and then nothing is requested; otherwise exactly one request for the download URL, an exception exactly when it raised, and `True` exactly for a 200 reply with a non-empty body |
| `Downloader.FetchAssetWritesTarget` | main.py:87-95 | only the absent target may be written, with the body of a 200 reply, and an absent target answered with 200 is always written; nothing else changes except the log |
| `Downloader.FetchAssetFetches` | main.py:90-95 | for an absent target whose request does not raise: exactly that request is logged, a 200 reply is written to the target (an empty body gives an empty file), any other status writes nothing, and the status is `True` exactly for a non-empty 200 body, `False` otherwise |
| `Downloader.FetchAssetLeavesTarget` | main.py:87-95 | after `"exists"` or `True` the target exists |
| `Downloader.FetchFormats` | main.py:87-111 | the pdf, then the epub when asked, ending at the first raised request: definition; characterised by the `Downloader.FetchFormats…` lemmas below |
| `Downloader.FetchFormatsWrites` | main.py:87-111 | the formats only add: the only new files are the pdf target and, when asked for, the epub target |
| `Downloader.FetchFormatsStatuses` | main.py:75-111 | on completion the pdf entry is set, and the epub entry is set exactly when the epub was asked for |
| `Downloader.FetchFormatsLogs` | main.py:87-111 | the log only grows, and without network exceptions the formats complete |
| `Downloader.FetchFormatsPdf` | main.py:87-95 | an absent pdf target is the next request, and the pdf is `"exists"` exactly when its target existed |
| `Downloader.FetchFormatsEpub` | main.py:97-111 | with epubs asked for and distinct targets, a completed run reports the epub as `"exists"` exactly when its target existed |
| `Downloader.FetchFormatsRequests` | main.py:87-111 | the requests are exactly the download URLs of the absent targets, pdf first, the epub's only when asked for, when the formats complete, and a prefix of those when a request raised |
| `Downloader.FetchFormatsFound` | main.py:87-111 | every format found or fetched has its target there afterwards |
| `Downloader.FetchFormatsAllExist` | main.py:87-111 | when every target exists, nothing is requested and every entry is `"exists"` |
| `Downloader.DownloadBookRun` | main.py:71-113 | `download_book` as a function of the world and the network: definition; characterised by the `Downloader.DownloadBook…` lemmas below and proved equal to `Downloader.Machine.DownloadBook` |
| `Downloader.DownloadBookLanded` | main.py:72-101 | once the directory is made and the landing page answered, the book is its formats, resolved from the landing page's final URL |
| `Downloader.DownloadBookGrows` | main.py:71-113 | `download_book` never overwrites or deletes a file, never removes a directory, and only appends to the log |
| `Downloader.DownloadBookStaysInBookDir` | main.py:72-111 | the package directory is the only directory it may create, and every new file is a pdf or an epub directly inside it |
| `Downloader.DownloadBookStatuses` | main.py:75-112 | in a recorded `success`, the pdf entry is set, and the epub entry is set exactly when epubs were asked for |
| `Downloader.DownloadBookFailures` | main.py:72-91 | a failing `mkdir` ends the book before any request; otherwise the landing page is the first request; without network exceptions the book completes |
| `Downloader.DownloadBookLandingFirst` | main.py:72-80 | once the directory is made, the first request is for the landing page |
| `Downloader.DownloadBookCompletes` | main.py:71-113 | without network exceptions, a book whose directory can be made completes |
| `Downloader.DownloadBookPdf` | main.py:80-95 | an absent pdf target is requested right after the landing page, and the pdf is `"exists"` exactly when the target existed |
| `Downloader.DownloadBookEpub` | main.py:80-111 | with epubs asked for, a completed book reports the epub as `"exists"` exactly when its target existed |
| `Downloader.DownloadBookRequests` | main.py:72-111 | once the directory is made and the landing page answers, the requests are the landing page and then exactly the download URLs of the absent targets, in order, and a prefix of those when a request raised |
| `Downloader.DownloadBookRequestCount` | main.py:72-111 | a book makes no request when `mkdir` raises, and otherwise between one and three requests, at most two without epubs |
| `Downloader.DownloadBookRerun` | main.py:87-111 | a book run again after completing with every format found or fetched makes only the landing request and reports every format as `"exists"` |
| `Downloader.BookRecord.constructor` | main.py:63-68 | a book dict with the four catalog keys and no `success` yet |
| `Downloader.Machine.Mkdir` | main.py:73 | the directory is made as `MkdirWorld` says, or nothing changes when it raises |
| `Downloader.Machine.ExistsAt` | main.py:87 | true exactly when a file or a directory is at the path |
| `Downloader.Machine.Get` | main.py:80 | the reply is the oracle's for the next request number, and the request is logged |
| `Downloader.Machine.Write` | main.py:93-94 | the file holds the content and the count written is its length |
| `Downloader.Machine.DownloadFormat` | main.py:82-95 | the new state and the status are those of `FormatStep` |
| `Downloader.Machine.DownloadBook` | main.py:71-113 | the new state is `DownloadBookRun`'s; the book's `success` is set exactly when the run completed, and otherwise is unchanged |
| `Downloader.Machine.NewRecords` | main.py:117 | one fresh, distinct record per catalog entry, in order, with no `success` |
| `Downloader.Machine.DownloadNext` | main.py:120-122 | running record `i` extends the batch over the first `i` records to the first `i + 1`, and the other records are untouched |
| `Downloader.Machine.DownloadAll` | main.py:119-123 | the state and every record's `success` are those of `BatchRun` |
| `Downloader.Machine.DownloadBooks` | main.py:116-124 | one record per catalog row, carrying that row's info; the state and the successes are those of `BatchRun` |
| `Downloader.BatchPrefix` | main.py:119-123 | the first `n` books run one after the other: one outcome per book run; characterised by `Downloader.BatchOutcome` |
| `Downloader.BatchRun` | main.py:116-124 | `download_books` as a function: definition; proved equal to `Downloader.Machine.DownloadBooks` and characterised by the `Downloader.Batch…` and `Downloader.DownloadBooks…` lemmas |
| `Downloader.BatchOutcome` | main.py:119-123 | book `i` of a batch runs on the state left by the books before it, and its recorded outcome is that run's |
| `Downloader.BatchGrows` | main.py:119-123 | a batch whose runs only add, only adds |
| `Downloader.BatchStaysInBookDirs` | main.py:119-123 | each new file of a batch is a new file of one of its runs |
| `Downloader.DownloadBooksGrows` | main.py:116-124 | `download_books` never overwrites or deletes a file, and only adds directories and requests |
| `Downloader.DownloadBooksStayInBookDirs` | main.py:116-124 | every file `download_books` adds is a pdf or an epub directly inside the package directory of one of its books |
| `Downloader.DownloadBooksOutcome` | main.py:116-124 | book `i` ends with the outcome of `download_book` on the state left by the books before it |

## Left out

- `download_books` hands every book to a `ThreadPoolExecutor` with
  `max_workers` threads. The model runs the books one after the other, in
  table order. Interleavings between threads are not modelled, and
  neither is the futures collecting exceptions silently.
- `str.lower` is modelled for ASCII letters only (`Strings.Lower`). Unicode
  case mapping is not modelled.
- `Resolver.Unquote` decodes a `%XX` escape only when its value is below
  0x80. A UTF-8 multi-byte sequence is left as it is, and so is the
  replacement character `errors="replace"` would insert.
- Paths use `/` as the separator, and `dst / pkg` is `dst + "/" + pkg`.
  `pathlib`'s normalisation is not modelled (`.` components, repeated
  separators), nor is the rule that an absolute right operand replaces
  the left one.
- Opening and writing a file never fails in the model, and a write
  writes the whole body. `mkdir` raises only for an existing file at the
  path or a missing parent; permissions are not modelled.
- `requests.get` is the oracle `web`. It follows redirects; auth,
  timeouts and connection reuse are not modelled. Every status other than
  200 is treated alike, as the code does.
- Reading the catalog with `pandas`, from the catalog URL, is not
  modelled; the table is a sequence of rows of text. Empty (`NaN`) cells
  are not modelled, and their effect depends on the column:
  - a `NaN` "English Package Name" makes `pkg.replace` raise inside
    `list(book_info_from_table(...))`, before any book is started, so
    `download_books` raises;
  - a `NaN` "Book Title" or "Author" makes `translate` raise inside
    `parse_book_url`, after that book's `mkdir` and landing request; the
    book is left without `success` and the other books go on;
  - a `NaN` "OpenURL" makes the landing `requests.get` raise after the
    book's `mkdir`, with the same effect on the batch.
- The command-line entry point is not modelled: argument parsing, making
  the destination directory, caching the catalog as `table.xlsx`, and
  printing the elapsed time.
- Default arguments are not modelled. `download_book`'s default
  `dst_dir="."` is a `str`, and `"." / pkg` would raise `TypeError`;
  `download_books` always passes its own `dst_dir`, a `Path` on the
  command line, so the model takes the destination as a path. The
  defaults `format_="pdf"` of `parse_book_url` and `get_epub=False` of
  `download_book` and `download_books` are never relied on: the calls at
  main.py:83, 99 and 121 pass both, and the command-line entry point
  passes `get_epub`. Every model member takes them as arguments.
- `Downloader.DownloadBookRun` resolves the epub target even when
  `get_epub` is false. Resolution is pure and never fails for `epub`, so
  nothing observable differs.
