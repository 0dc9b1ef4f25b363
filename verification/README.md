# Book-page downloader, modelled in Dafny

The repository turns a FullBookReader link (`…/FullBookReader.aspx?Url=…&TotalPage=N&ext=jpg`)
into a PDF of the book's page images. It ships four downloaders. All four read the link the same
way:

- `TotalPage` gives the page count N;
- `ext` gives the image extension;
- `Url` gives the folder on the site that holds the images;
- page `p` is the file `f"{p:06d}.{ext}"` under that folder.

The downloaders differ in how they fetch the pages and put them together:

- `download_optimised.py` fetches every page concurrently. It streams the pages onto one PDF
  canvas in page order through an ordered reassembler: a `ready` buffer and a
  `next_page_to_write` cursor.
- `download_concurrent_disk_merge.py` fetches every page concurrently into a dict keyed by page
  number. It then binds the images in sorted key order.
- `download.py` fetches pages one by one into a folder and skips files that already exist.
  `images_to_pdf` then orders the folder's files by the page number in their names.
- `download_concurrent.py` fetches pages concurrently and saves each one as `<page:06d>.jpg`.
  `compile_dir_to_pdf` then binds the folder's image files in name order.

The model is organised as follows:

- **`common.dfy` (`Common`)**: bytes, results and the exceptions raised (as an `Error` value),
  responses with requests' `ok`, and the network as a function from URL to response.
- **`strings.dfy` (`Strings`)**: `startswith`, `endswith`, `lstrip`, ASCII `lower`, `rfind`, and
  Python's string order.
- **`numerals.dfy` (`Numerals`)**: `f"{p:06d}"` and `int()`, with their round trips and the
  order of zero-padded names.
- **`ranges.dfy` (`Ranges`)**: `range(1, N + 1)`. Also the completion order: what `as_completed`
  yields over one future per page, which is any permutation of `1..N`.
- **`resolver.dfy` (`Resolver`)**: the link resolver the four files repeat, page names and page
  URLs.
- **`reassembler.dfy` (`Reassembler`)**: the ordered reassembler, and the theorem that every
  completion order draws pages `1..N` ascending, each once, with its own bytes.
- **`optimised.dfy`, `disk_merge.dfy`, `sequential.dfy`, `concurrent.dfy`**: one module per
  downloader.

Thread scheduling is replaced by the completion order, which is an input. A folder is a map from
file name to contents. A directory listing is an input sequence, in whatever order the file
system returns it. A drawn PDF page is the image bytes, or the path, that it is drawn from.

Three behaviours of the code are easy to miss:

- Only a `TotalPage` of exactly 0 is rejected. A negative count passes validation and leaves an
  empty page range.
- The `ready` buffer is unbounded. Every page's download is submitted at once, so no look-ahead
  limit ever holds back dispatch.
- A failed page in `download.py` is reported and skipped. It does not end the run.

## Model

| member | source | states |
|---|---|---|
| Common.Response.Ok | download.py:69 | requests' `resp.ok`: the status is outside 400 to 599; `raise_for_status` raises exactly when it is false |
| Common.Response.Retried | download_optimised.py:30-35 | the status is in the sessions' `status_forcelist` (429, 500, 502, 503, 504), for which `get` raises RetryError once the retries run out |
| Strings.LStrip | download_optimised.py:49 | `lstrip("/")` returns a suffix of its input that does not start with the stripped character, and every character removed was that character |
| Strings.LStripIdempotent | download.py:49 | stripping leading slashes a second time removes nothing more |
| Strings.Lower | download_optimised.py:45 | `lower()` keeps the length and lowers each character on its own |
| Strings.LowerIdempotent | download_optimised.py:45 | a lowered extension has no upper-case letter left, and lowering it again changes nothing |
| Strings.LastIndexOf | download_concurrent.py:100 | the index found is -1 or holds the character, and no later index holds it |
| Strings.LexLessTotal | download_concurrent.py:98-101 | Python's string `<` orders any two different names exactly one way |
| Strings.LexLessTransitive | download_concurrent.py:98-101 | Python's string `<` is transitive, which `sorted` relies on |
| Strings.LexLeAntisymmetric | download_concurrent.py:98-101 | two names each at most the other are equal |
| Numerals.ParseInt | download_optimised.py:44 | `int()` accepts exactly a non-empty run of digits, optionally after one `-` or `+`, and returns its value, negated after `-` |
| Numerals.ToDecimal | download.py:41 | the decimal digits of a natural number, with no leading zero except for 0 itself, as `str()` writes it and `int()` reads it |
| Numerals.Pad6 | download.py:59 | `f"{p:06d}"`: the digits of `p`, zero-filled on the left to at least six; Pad6RoundTrip, Pad6Injective and Pad6Order state what it promises |
| Numerals.IntToString | download.py:41 | Python's `str(i)`: a `-` and the digits for a negative number, the digits alone otherwise; IntRoundTrip shows `int()` reads it back |
| Numerals.IntRoundTrip | download.py:41 | `int(str(i)) == i` for every integer, so `ParseInt` reads back every page count |
| Numerals.Pad6RoundTrip | download.py:59 | `f"{p:06d}"` is all digits, at least six of them, exactly six below 10^6, and reads back as `p` |
| Numerals.Pad6Injective | download.py:59 | different page numbers get different padded spellings |
| Numerals.DigitsOrder | download_concurrent.py:98-101 | two spellings of the same width compare as strings exactly as their numbers compare |
| Numerals.Pad6Order | download_concurrent.py:98-101 | below 10^6, padded names with one common suffix sort in page order, both directions |
| Numerals.Pad6OrderBreaksAtOneMillion | download_concurrent.py:81 | the bound is tight: the name of page 1000000 sorts before the name of page 999999 |
| Ranges.Range | download_optimised.py:91 | `range(lo, hi)` has `hi - lo` elements (none when empty), the i-th being `lo + i` |
| Ranges.IsCompletionOrder | download_concurrent.py:85 | what `as_completed` can yield over one future per page: each of `1..n` exactly once, in any order |
| Ranges.RangeAppend | download_optimised.py:100-109 | the pages written before a drain and those the drain writes join into one unbroken range |
| Ranges.IncreasingEnumerationIsRange | download_concurrent_disk_merge.py:72 | a strictly ascending listing of the keys `1..n` is `range(1, n + 1)` itself |
| Resolver.ParseQs | download_concurrent.py:62 | `parse_qs` with blank values dropped: no value in the result is blank |
| Resolver.ParseQsKeys | download_concurrent.py:62-63 | a name is in the query exactly when some pair gives it a non-blank value |
| Resolver.ParseQsFirstValue | download_concurrent.py:62-65 | a name's value is the first non-blank value given to it, as `[0]` takes it |
| Resolver.BlankParametersDropped | download_concurrent.py:62-64 | a link with `TotalPage=&ext=` and a Url resolves, unvalidated, to 0 pages with extension `jpg`; the validating resolver rejects it for the missing count |
| Resolver.SiteRoot | download_optimised.py:17 | `f"{parsed.scheme}://{parsed.netloc}"` |
| Resolver.Param | download_optimised.py:42-44 | `q.get(key, [default])[0]`: the name's value when the query holds it, the default otherwise |
| Resolver.AbsPath | download_optimised.py:18-19 | a `/` is put in front of a path that does not start with one: the result starts with `/`, ends with the path, and is one character longer exactly when the `/` was added |
| Resolver.TotalPage | download_concurrent.py:63 | `int(q.get("TotalPage", [0])[0])` fails with ValueError exactly when a TotalPage is given and `int()` rejects it; an absent one gives 0, a readable one its value |
| Resolver.NormRelPath | download_optimised.py:49-51 | the relative path is the parameter without its leading slashes, left as it is when that already ends in `/` and with a `/` added otherwise; it starts with `/` only when the parameter was all slashes |
| Resolver.NormRelPathIdempotent | download_optimised.py:49-51 | normalising a normalised relative path changes nothing |
| Resolver.MakeBaseImgUrl | download_optimised.py:15-20 | the base URL is the site root, one `/` and the relative path: it starts with the first two, ends with the path, and is one character longer than both together unless the path brought its own `/` |
| Resolver.MakeBaseKeepsAbsolutePath | download.py:16-18 | an absolute relative path is appended to the site root as it is |
| Resolver.BaseUrlShape | download_optimised.py:49-52 | the base is the site root, one `/`, and the parameter without its leading slashes with a trailing `/` ensured; it always ends in `/` |
| Resolver.Resolve | download_optimised.py:42-53 | fails with ValueError exactly when `int()` rejects TotalPage, Url is empty, or the count is 0; otherwise gives the parsed count, the extension (default `jpg`, lowered on request), and the base `_make_base_img_url` builds from the site root and the normalised Url, whose path starts and ends with `/` |
| Resolver.ResolveUnchecked | download_concurrent.py:62-68 | only an unreadable TotalPage fails; an absent TotalPage gives 0 pages; the base is the one `_make_base_img_url` builds from the normalised Url, and an absent Url gives the site root followed by `/` |
| Resolver.DirShape | download_concurrent.py:66-68 | the path of every base starts and ends with `/`, and is `/` alone when Url is empty |
| Resolver.PageUrls | download_concurrent.py:71-73 | one URL per page of `1..N` (none for N <= 0), the i-th being page `i + 1`'s |
| Resolver.PageName | download.py:59 | the file name `f"{p:06d}.{ext}"`: the zero-padded page number, a dot and the extension |
| Resolver.PageNameShape | download.py:59 | a page name ends in `.` and the extension, and what precedes them is six or more digits that read back as the page |
| Resolver.Squeeze | download_optimised.py:61 | the base path with every `/` that opens it or follows another `/` removed, which is never longer than the path |
| Resolver.PageDir | download_optimised.py:61 | the directory `urljoin` resolves a file name against: the site root, `/`, and the squeezed base path |
| Resolver.JoinName | download.py:60 | `urljoin(base_img_url, fname)` for a name without `/`: the name after that directory |
| Resolver.PageUrl | download_concurrent_disk_merge.py:57 | `urljoin(base, f"{page:06d}.{ext}")`: the page's name joined onto the base |
| Resolver.PageUrlShape | download_concurrent.py:72 | every page URL starts with the site root and `/`, ends with the page's name, and its directory part holds no empty segment |
| Resolver.PageNameInjective | download.py:59 | different pages never share a file name |
| Resolver.PageUrlReadsBack | download_optimised.py:61 | a page URL below page 10^6 is the directory `urljoin` resolves the name into, six digits that read back as the page, a dot and the extension |
| Resolver.SplitJoinRoundTrip | download_optimised.py:61 | `path.split("/")` joined again with `"/"` gives the path back, and no piece holds a `/` |
| Resolver.SqueezeJoinsPieces | download_optimised.py:61 | the squeezed base path is what `urljoin` builds from the path's pieces: every piece but the last, with the empty ones filtered out, each followed by `/`, then the last piece |
| Resolver.SqueezeShape | download_optimised.py:61 | the path `urljoin` resolves a name against keeps only non-empty segments: no leading `/`, no `//`, and it ends where the base path ends |
| Resolver.PageUrlExtendsBase | download_optimised.py:61 | the page URL is the base followed by the page's name exactly when the base path holds no `//`; otherwise it is shorter |
| Resolver.PageUrlDropsDoubleSlash | download.py:9-13 | a base path `/a//b/`, the `//FullPreview` shape the resolver is meant to accept, fetches its pages from `/a/b/` |
| Reassembler.Drain | download_optimised.py:100-109 | draining pops exactly the contiguous run of buffered pages from the cursor, draws them ascending with their own bytes after what was drawn, keeps other buffered pages, and stops at the first missing page |
| Reassembler.Receive | download_optimised.py:96-109 | a completion buffers its page and drains: the cursor never moves back and never stops on a buffered page, the drawn list grows by exactly the pages between the old and new cursor, the old PDF pages stay, the received page is either drawn or still buffered with its bytes |
| Reassembler.DrainPopped | download_optimised.py:100-109 | one pop followed by a drain of the rest is a drain from the original cursor |
| Reassembler.ReceiveKeepsGood | download_optimised.py:96-109 | a newly completed page lies at or beyond the cursor and was never drawn; after it is buffered and the buffer drained, the invariant holds (drawn = `1..next-1` with their bytes, buffer = completed pages beyond the cursor) and the cursor has not moved back |
| Reassembler.DrainKeepsGood | download_optimised.py:97-109 | draining a buffer that holds exactly the completed pages from the cursor on restores the reassembler invariant |
| Reassembler.RunKeepsGood | download_optimised.py:95-109 | any sequence of distinct completions keeps the reassembler invariant |
| Reassembler.Run | download_optimised.py:95-109 | after any sequence of completions the drawn pages are exactly `1..next-1`, one PDF page each, and the cursor's page is not buffered |
| Reassembler.RunCompletionOrder | download_optimised.py:85-111 | for every completion order of `1..n`, the canvas receives exactly pages `1..n` ascending, each once with its own bytes, `ready` ends empty and the cursor ends at `n + 1` |
| Optimised.ParseReaderUrl | download_optimised.py:42-53 | `_parse_reader_url` fails with ValueError exactly on a bad count, missing Url or zero count; on success the extension has no upper-case letter and is `jpg` when absent, and the base is `_make_base_img_url` of the site root and the normalised Url |
| Optimised.FetchPage | download_optimised.py:23-66 | a page fetch succeeds exactly when the response for that page's URL is ok, returning the page with its bytes; a status in the retry list raises RetryError from `s.get`, any other failing status RuntimeError for that page |
| Optimised.PageError | download_optimised.py:30-36 | a failing page raises RetryError exactly when its status is in the retry list, and RuntimeError naming the page otherwise |
| Optimised.FailsFirst | download_optimised.py:95-96 | when the job at some position of the completion order fails and every earlier one was ok, not every page is ok and that job's error is the first failure |
| Optimised.StreamsAll | download_optimised.py:95-113 | when every job in the completion order is ok, every page is ok and the canvas holds pages `1..N` in page order with their bytes |
| Optimised.StreamPages | download_optimised.py:82-113 | the PDF is produced exactly when every page is ok and then holds pages `1..N` ascending with their bytes; otherwise the error is the one the first failing page in completion order raises |
| Optimised.Streamed | download_optimised.py:82-113 | the outcome of streaming: a PDF exactly when every page is ok, holding pages `1..N` in order with their bytes; otherwise the first failure's error |
| Optimised.DownloadAndStream | download_optimised.py:72-113 | a bad link fails with ValueError before any fetch; otherwise the PDF holds pages `1..N` in order exactly when all are ok, else the first failure's error is raised |
| DiskMerge.ReadParams | download_concurrent_disk_merge.py:43-54 | the inline resolver fails exactly on a bad count, missing Url or zero count; the extension is taken as given (`jpg` when absent), not lowered |
| DiskMerge.PageJobs | download_concurrent_disk_merge.py:57 | the job list pairs each page of `1..N`, ascending, with that page's URL |
| DiskMerge.DownloadSingleImage | download_concurrent_disk_merge.py:33-40 | `_download_single_image` together with the pool loop that wraps its error (lines 62-69): a download succeeds exactly when the response is ok, with the page and its bytes; otherwise the loop raises RuntimeError naming the page |
| DiskMerge.Collect | download_concurrent_disk_merge.py:60-69 | the dict holds exactly the completed pages, each with its own bytes |
| DiskMerge.InsertKey | download_concurrent_disk_merge.py:72 | inserting a new key into an ascending key list keeps it strictly ascending with the same keys plus the new one |
| DiskMerge.SortKeys | download_concurrent_disk_merge.py:72 | `sorted(page_image_map)` is strictly ascending and holds exactly the dict's keys |
| DiskMerge.Ordered | download_concurrent_disk_merge.py:72 | `[page_image_map[pg] for pg in sorted(page_image_map)]`: one image per key, the i-th stored under the i-th smallest key, every stored image present |
| DiskMerge.OrderedCollect | download_concurrent_disk_merge.py:60-72 | whatever order pages `1..n` arrive in, the images in sorted key order are pages `1..n` ascending with their own bytes |
| DiskMerge.CollectThenSortMatchesStreaming | download_concurrent_disk_merge.py:60-72 | collect-then-sort yields the same page sequence as the streaming reassembler, for every completion order |
| DiskMerge.FetchAll | download_concurrent_disk_merge.py:60-69 | the pool succeeds exactly when every completed job was ok, leaving the keys `1..N` with their bytes; otherwise it raises for the first failing page in completion order |
| DiskMerge.CollectAndSort | download_concurrent_disk_merge.py:57-76 | with pages: the ordered images are pages `1..N` exactly when all are ok, else the first failure is raised; with a negative count the empty list gives IndexError |
| DiskMerge.Merged | download_concurrent_disk_merge.py:57-76 | the outcome of the pool and the merge with pages: the images of pages `1..N` in order exactly when all are ok, otherwise a RuntimeError for a failing page that completed after only ok pages |
| DiskMerge.FailureMerged | download_concurrent_disk_merge.py:62-69 | the first failure the pool loop raises is a failing page of `1..N` completed after only ok pages |
| DiskMerge.SuccessMerged | download_concurrent_disk_merge.py:70-72 | when every job completed ok, every page is ok and the ordered images are pages `1..N` with their bytes |
| DiskMerge.DownloadAndMerge | download_concurrent_disk_merge.py:42-76 | the whole download: ValueError for a bad link, IndexError for a negative count, otherwise pages `1..N` in order or the first failure |
| Sequential.DownloadReaderImages | download.py:21-75 | a bad link is a ValueError; otherwise exactly the files of pages that did not exist and were served ok are added, with their bytes; existing files stay as they were; a negative count leaves the folder unchanged |
| Sequential.FetchAll | download.py:58-75 | after the loop over `1..N` the folder is described by `DownloadedDir`, and a loop that visits no page leaves it unchanged |
| Sequential.StepKeepsDownloaded | download.py:59-75 | one visit (skip if present, write if ok, report and go on otherwise) extends the folder description from the pages before it to that page |
| Sequential.TrailingDigits | download.py:110 | the digit run read is all digits, is a suffix of the text, and is preceded by a non-digit or the start |
| Sequential.PageKey | download.py:110-113 | the sort key is never negative and is 0 for a path that does not end in `.<ext>` |
| Sequential.PageKeyReadsDigitRun | download.py:110-113 | for any prefix not ending in a digit, then digits, then `.<ext>`, the key is the value of exactly those digits, and 0 when there are none |
| Sequential.SplitAtDigitRun | download.py:110-113 | every path ending in `.<ext>` is such a prefix, its trailing digit run and `.<ext>`, so the lemma above fixes the key of every path |
| Sequential.PageKeyOfPageName | download.py:110-113 | the file `download_reader_images` writes for page `p` sorts under key `p` |
| Sequential.InsertByKey | download.py:111-114 | insertion keeps the list ascending by key and adds exactly the one element |
| Sequential.SortByKey | download.py:111-114 | `sorted(…, key=…)` is a permutation of its input, ascending by key |
| Sequential.InsertByKeyStable | download.py:111-114 | inserting a file into a key-sorted list puts it ahead of the files that share its key, leaving each key's files in their order |
| Sequential.SortByKeyStable | download.py:111-114 | `sorted` is stable: for every key, the files with that key come out in the order the input lists them |
| Sequential.ImagesToPdf | download.py:105-116 | FileNotFoundError exactly when the glob found nothing; otherwise the PDF pages are a permutation of the found files, ascending by page key, and files that share a key keep the glob's order |
| Sequential.KeySortedUnique | download.py:111-114 | two key-sorted permutations of the same files are equal when no two of the files share a key |
| Sequential.ImagesToPdfRestoresPageOrder | download.py:107-116 | whatever order the glob lists the files of pages `1..n` in, any `n`, the PDF holds them in page order |
| Sequential.PagePathKeys | download.py:110-113 | page files listed ascending are key-sorted, and no two of them share a key |
| Sequential.GlobPages | download.py:107 | the glob keeps exactly the paths ending in `.<ext>`, each as often as listed |
| Sequential.BuildPdfAsWritten | download.py:153-154 | as written, the book is bound only when some file ends in `.jpg`, whatever extension it was downloaded with |
| Sequential.BuildPdfAsWrittenLosesPngBook | download.py:153-154 | a fully downloaded one-page `png` book makes the as-written helper raise FileNotFoundError |
| Sequential.BuildPdf | download.py:153-154 | passing the link's extension on: FileNotFoundError exactly when no file has it, else the pages ascend by key |
| Sequential.BuildPdfRestoresPageOrder | download.py:139-154 | with the extension passed on, the downloaded pages `1..n`, listed in any order among files of other extensions, are bound in page order |
| Sequential.GlobOfListing | download.py:107 | globbing such a listing finds exactly the page files |
| Concurrent.DownloadImagesToDir | download_concurrent.py:54-90 | an unreadable count raises ValueError before any download; otherwise every ok page is saved as `<page:06d>.jpg` (overwriting), other files are untouched, and the run raises exactly when some page failed, naming the first failure in completion order |
| Concurrent.SavePages | download_concurrent.py:75-90 | the pool saves every ok page whatever fails, since the pool waits for all jobs, and reports the first failure in completion order |
| Concurrent.Save | download_concurrent.py:40-48 | one completed job: an ok page's bytes are written to `<page:06d>.jpg`, over any old file; a failed job writes nothing |
| Concurrent.SaveAll | download_concurrent.py:75-88 | the folder after the jobs complete in a given order; no file that was there before is removed |
| Concurrent.AllSaved | download_concurrent.py:75-88 | saving the jobs in completion order, up to any point, leaves the folder that holds exactly the ok pages completed so far, each with its bytes, and every other file as it was |
| Concurrent.SaveStep | download_concurrent.py:40-48 | one completed job extends the folder description: an ok page's file holds its bytes and nothing else changes |
| Concurrent.AllOkInCompletionOrder | download_concurrent.py:85-90 | no job in a completion order failing is the same as every page of `1..N` being ok |
| Concurrent.AllPagesSaved | download_concurrent.py:75-90 | when every page is ok, the folder afterwards holds every page's file with its bytes |
| Concurrent.Suffix | download_concurrent.py:100 | `PurePath.suffix` is non-empty exactly when the name's last dot is neither its first nor its last character, and then is the dot-led ending from that dot, with no other dot |
| Concurrent.IsImageName | download_concurrent.py:100 | a name is an image when its suffix, lowered, is `.jpg`, `.jpeg` or `.png` |
| Concurrent.SuffixOfStemExt | download_concurrent.py:100 | a non-empty stem, a dot and a dot-free extension have that extension, dot included, as suffix |
| Concurrent.ImageFiles | download_concurrent.py:98-101 | the filter keeps exactly the names with a `.jpg`, `.jpeg` or `.png` suffix in any case, each as often as listed |
| Concurrent.LexInsert | download_concurrent.py:98-101 | inserting a name keeps the list in string order and adds exactly that name |
| Concurrent.LexSort | download_concurrent.py:98-101 | `sorted` is a permutation of its input in ascending string order |
| Concurrent.CompileDirToPdf | download_concurrent.py:96-103 | ValueError exactly when no listed name is an image; otherwise the PDF pages are exactly the image files, in name order |
| Concurrent.NoImageFiles | download_concurrent.py:102-103 | the filtered list is empty exactly when no listed name is an image |
| Concurrent.LexSortedUnique | download_concurrent.py:98-101 | two string-sorted permutations of the same names are equal |
| Concurrent.OutputName | download_concurrent.py:81 | `f"{i+1:06d}.jpg"`: the page's padded name with extension `jpg` |
| Concurrent.OutputNameIsImage | download_concurrent.py:81 | the name each page is saved under passes the image filter |
| Concurrent.OutputNamesSorted | download_concurrent.py:81 | below 10^6 pages, the saved names listed by page are in string order |
| Concurrent.CompileRestoresPageOrder | download_concurrent.py:96-111 | a folder holding pages `1..n` (n < 10^6) and any non-image files, listed in any order, is bound as exactly those pages in page order |
| Concurrent.ImageFilesOfListing | download_concurrent.py:98-101 | the image filter of such a listing keeps exactly the saved pages |

## Left out

- HTTP sessions, headers, timeouts and back-off are not modelled. The network is a function from URL to the last response the transport sees. A status in the sessions' retry list (429, 500, 502, 503, 504) makes `get` raise RetryError once the retries run out. `download_optimised.py` lets that error through, while the other concurrent files wrap every error as RuntimeError naming the page. `download.py` uses a session without retries. urllib3 also retries a 413, 429 or 503 that carries a `Retry-After` header; headers are not modelled, so a 413 with that header, which ends as RetryError, is modelled as RuntimeError for the page.
- `raise_for_status` and `ok` are modelled as a status from 400 to 599. Connection errors and timeouts, which raise as well, are not modelled.
- Threads, `max_workers` and `as_completed` are replaced by the completion-order input. Any permutation of the pages is allowed.
- Image decoding and RGB conversion (PIL), and PDF encoding (reportlab, PIL's PDF writer, FPDF), are left out. A drawn page is its bytes or its path. Decoding failures are not modelled.
- `download_concurrent.py` re-encodes each image to JPEG before saving. The model stores the response bytes.
- `urlparse` and `unquote` are library code. The model starts from the scheme, the network location and the query's `name=value` pairs, already decoded. The `Url` value is taken after the code's own second `unquote` as well (download_optimised.py:49). `parse_qs` is modelled by Resolver.ParseQs: it drops blank values, as its default `keep_blank_values=False` does, and keeps each name's first remaining value. Its `strict_parsing` errors, `max_num_fields` and `separator` are not modelled.
- `urljoin` is modelled for the two ways it is used. An absolute path joined onto a bare site root is appended as it is. A slash-free name joined onto a base is put after the base path's non-empty segments, as Resolver.PageDir states. The base is kept as site root and path, so the model does not parse a joined base again. A `Url` holding `?`, `#`, `;` or `.`/`..` segments, or an `ext` holding `/`, would be parsed or resolved further by `urljoin`; that is not modelled. The link's scheme is taken to be one `urljoin` resolves relative references for (those in `uses_relative`, such as `http` and `https`); for any other scheme `urljoin` returns the name unchanged, which the model does not follow.
- Numerals.ParseInt: does not accept the surrounding whitespace, `_` separators or non-ASCII digits that Python's `int()` also takes, because reader links carry plain decimal counts.
- Strings.Lower: lowers ASCII letters only, because the extensions and suffixes involved are ASCII.
- Sequential.PageKey: `\d` is read as ASCII digits, and `$` does not also match before a trailing newline. No downloaded file name contains either kind of character.
- Sequential.GlobPages: the glob is modelled as a suffix match. Hidden files and glob metacharacters inside `ext` are not modelled.
- `sorted` over paths uses POSIX path order: the names of one folder compare as strings, case-sensitively. Windows paths compare case-folded, which the model does not follow.
- Directory listings (`glob`, `iterdir`) are inputs given as sequences. `mkdir`, `rmtree`, the existence check (a map lookup) and `print` have no further model.
- Concurrent.OutputNamesSorted: holds only below 10^6 pages. Beyond that the padded names are longer, and Numerals.Pad6OrderBreaksAtOneMillion shows that name order then differs from page order.
- `download_and_save_pdf` (download_concurrent.py:117-126) is the composition of Concurrent.DownloadImagesToDir and Concurrent.CompileDirToPdf. It has no separate member.
- `app.py`, the Flask front end, is not part of this model.

## Findings

| source | as written | input that shows it | evidently intended | confidence | as-written member | corrected member |
|---|---|---|---|---|---|---|
| download.py:153-154 | `download_and_build_pdf` downloads the pages with the link's `ext`. It then calls `images_to_pdf` without `ext`, so the glob looks for `*.jpg` | a link with `ext=png` whose pages are all served ok: the folder holds `000001.png …`, and `images_to_pdf` raises FileNotFoundError | bind the pages with the extension they were downloaded with | medium, not executed | Sequential.BuildPdfAsWritten, Sequential.BuildPdfAsWrittenLosesPngBook | Sequential.BuildPdf, Sequential.BuildPdfRestoresPageOrder |
