# Batch downloader: entry naming and the archive loop

This project models the core of `downloader_script.py`, a script that reads a
list of page URLs, opens each page in a headless browser, follows its
"Download this file" link and stores every downloaded file in one in-memory
zip archive. The model covers three parts of that script:

- `Download.get_file_extension`: the content-type table that picks `.rar`,
  `.exe` or `.bin` (module `Naming`).
- `Download.extract_file_name_from_url`, from the parsed URL path on: split
  on `/`, join the segments from the fourth on with `-`, fall back to
  `unknown_file` (module `Naming`). The Python string operations it uses
  (`strip`, `split`, `join`, `replace`, `str(n)`) are written out in module
  `PyStr`.
- The loop of `Download.scrape`:
  - links are stripped and numbered from 1;
  - each successful link adds one entry named `[index]. name.ext`;
  - a link that fails at any stage adds nothing, and the loop goes on.

  This is the class `Download` with its method `Scrape`, proved against the
  specification function `Archived` (module `Downloader`).

Modules:

- `Wrappers` holds `Option`.
- `Collect` holds the generic "append a value or skip" shape that `Archived`
  is built on:
  - `Flatten`: the present values, in order;
  - `Present`: their positions.

What happened to each link in the browser and over HTTP is an input to
`Scrape`: a sequence of `LinkOutcome`, one per link. Its values are a page
that failed to load, no download anchor, an anchor without an href, a failed
request, or a fetched response with its `Content-Type` header and body. The
path `urllib.parse.urlparse` gives for a link is also an input, a function
`urlPath`; `None` means the parser raised. A raise there happens after the
extension was computed but before anything is written, so the link adds
nothing.

What is proved:

- the extension is always one of the three and is an exact-key lookup;
- the file name has both branches, holds no `/`, and makes the final
  `replace('/', '-')` a no-op;
- entry names carry their index, which can be read back, so no two entries
  share a name;
- `Scrape` ends with the archive `Archived(...)` and the counter at
  `len(links) + 1`, visiting every stripped link in order;
- the archive only grows, with at most one entry per link, in link order;
- every entry comes from a fetched link, and every fetched link whose path
  parses has its entry in the archive.

For `https://host/a/b/c/d/e` the name is `c-d-e`: the path starts with
`/`, so the first segment is empty and the fourth is `c`
(`Naming.FileNameOfLongPath`).

## Model

| member | source | states |
|---|---|---|
| Naming.FileExtension | downloader_script.py:41-58 | the extension is always one of `.rar`, `.exe`, `.bin` |
| Naming.ExtensionTable | downloader_script.py:43-58 | `.rar` exactly for the zip, 7z and rar content types; `.exe` exactly for `application/x-msdownload`; `.bin` for everything else |
| Naming.ExtensionIsExactMatch | downloader_script.py:58 | the lookup is on the whole header value: the empty value (missing header), a type with parameters and an upper-case type all give `.bin` |
| Naming.FileNameFromPath | downloader_script.py:61-66 | `extract_file_name_from_url` from the parsed path on; its meaning is carried by `FileNameFromSegments`, `FileNameBySlashes`, `FileNameOfSegments` and the example lemmas below |
| Naming.FileNameFromSegments | downloader_script.py:63-66 | fewer than 3 segments give `unknown_file`; otherwise the name is the segments from index 3 on joined with `-`; the name never holds `/`, so the `replace` changes nothing |
| Naming.FileNameBySlashes | downloader_script.py:61-66 | read off the path: under two `/` the fallback, exactly two the empty name, three or more the text after the third `/` with each later `/` turned into `-` |
| Naming.FileNameOfSegments | downloader_script.py:63-66 | for a path given as `/`-free segments, the name is the fallback below 3 segments and the join of segments 3.. otherwise |
| Naming.FileNameOfLongPath | downloader_script.py:63-65 | `/a/b/c/d/e` names `c-d-e` |
| Naming.FileNameOfThreeSegments | downloader_script.py:63-65 | `/a/b` names the empty string |
| Naming.FileNameOfTrailingSlash | downloader_script.py:63-65 | `/a/b/c/` names `c-` |
| Naming.FileNameOfShortPaths | downloader_script.py:63-66 | `/a` and the empty path name `unknown_file` |
| Naming.FallbackNameIsAlsoReachable | downloader_script.py:64-66 | `unknown_file` does not mean the path was short: `/a/b/unknown_file` has 4 segments and gives the same name |
| Naming.EntryName | downloader_script.py:120 | the f-string `[index]. name.ext`; its meaning is carried by `EntryIndexOfEntryName` and `EntryNamesDistinct` |
| Naming.EntryIndexOfEntryName | downloader_script.py:120 | the index can be parsed back out of `[index]. name.ext`, whatever the name and extension hold |
| Naming.EntryNamesDistinct | downloader_script.py:120 | entry names for different indices differ |
| PyStr.StripSlice | downloader_script.py:85 | `strip()` keeps a contiguous slice that starts right after the leading whitespace |
| PyStr.StripTail | downloader_script.py:85 | everything after the kept slice is whitespace |
| PyStr.StripEnds | downloader_script.py:85 | the kept slice neither starts nor ends with whitespace |
| PyStr.Strip | downloader_script.py:85 | `link.strip()`; its meaning is carried by `StripSlice`, `StripTail`, `StripEnds`, `StripClean` and `StripIdempotent` |
| PyStr.StripClean | downloader_script.py:85 | a string with no whitespace at either end is its own `strip()` |
| PyStr.StripIdempotent | downloader_script.py:85 | stripping twice is stripping once |
| PyStr.LeadingSpaces | downloader_script.py:85 | the longest whitespace prefix: all whitespace, and the next character is not |
| PyStr.TrailingSpaces | downloader_script.py:85 | the longest whitespace suffix: all whitespace, and the character before it is not |
| PyStr.IndexOf | downloader_script.py:63 | the first occurrence of the separator: it is there and nowhere before |
| PyStr.IndexOfUnique | downloader_script.py:63 | any position holding the separator with none before it is the first occurrence |
| PyStr.Split | downloader_script.py:63 | `split` gives at least one piece, and no piece holds the separator |
| PyStr.SplitCount | downloader_script.py:63 | `n` separators give `n + 1` pieces |
| PyStr.Join | downloader_script.py:65 | `sep.join(parts)`; its meaning is carried by `JoinSplit`, `SplitJoin`, `JoinCons`, `JoinAvoids` and `JoinSplitIsReplace` |
| PyStr.JoinSplit | downloader_script.py:63 | joining the pieces with the separator gives back the path |
| PyStr.SplitJoin | downloader_script.py:63 | splitting separator-free pieces joined by the separator gives back the pieces |
| PyStr.SplitAfter | downloader_script.py:63 | the pieces from index `n` on are the split of the text after the `n`-th separator |
| PyStr.ReplaceChar | downloader_script.py:65 | `replace` keeps the length |
| PyStr.ReplaceCharAt | downloader_script.py:65 | each character of `replace(a, b)` is the original one, with `a` turned into `b` |
| PyStr.ReplaceAbsent | downloader_script.py:65 | replacing a character that does not occur changes nothing |
| PyStr.ReplaceAtFirst | downloader_script.py:65 | replacing in a string splits at the first `a` into untouched prefix, `b` and the replaced rest |
| PyStr.JoinSplitIsReplace | downloader_script.py:65 | joining the pieces of a split on `a` with `b` is replacing every `a` by `b` |
| PyStr.JoinAvoids | downloader_script.py:65 | joining `/`-free pieces with `-` gives a `/`-free string |
| PyStr.Decimal | downloader_script.py:120 | `str(index)` is a non-empty digit string with no leading zero |
| PyStr.ParseDecimalOfDecimal | downloader_script.py:120 | reading the digits of `str(n)` gives back `n` |
| PyStr.DecimalInjective | downloader_script.py:120 | different indices print differently |
| Downloader.JoinPath | downloader_script.py:36 | `os.path.join` (POSIX): an absolute file name replaces the directory; otherwise the directory, then a `/` exactly when the directory is non-empty and does not end in `/`, then the file name |
| Downloader.Download.constructor | downloader_script.py:33-36 | keeps the links and the save path; the archive path is `downloaded_files.zip` joined to the save path |
| Downloader.ZipArchive.constructor | downloader_script.py:81 | a new archive is empty |
| Downloader.ZipArchive.WriteStr | downloader_script.py:123 | `writestr` appends one entry after all earlier ones and changes nothing else |
| Downloader.LinkEntry | downloader_script.py:88-123 | a link yields an entry exactly when its response was fetched and its path parses, and the entry holds the response body |
| Downloader.LinkEntryCarriesIndex | downloader_script.py:119-120 | the name of a link's entry carries that link's index |
| Downloader.ZipEntry | downloader_script.py:115-123 | a fetched `application/zip` response is stored as `[index]. name.rar` |
| Downloader.LinkEntries | downloader_script.py:83-134 | the link at 0-based position `k` is stripped and handled with index `k + 1` |
| Downloader.Visits | downloader_script.py:83-87 | the pages visited are the stripped links in order, the `k`-th with index `k + 1` |
| Downloader.VisitsPrefixStep | downloader_script.py:84-87 | one more link visits one more page, after the earlier ones |
| Downloader.Archived | downloader_script.py:83-134 | the archive after the loop: the entries the links yield, in link order; its meaning is carried by `ArchivedStep`, `ArchivedBound`, `ArchivedAppendOnly`, `ArchivedSources`, `ArchivedInLinkOrder`, `ArchivedNamesDistinct` and `ArchivedComplete` |
| Downloader.ArchivedStep | downloader_script.py:84-134 | one more link appends exactly its own entry, if any, after the earlier ones |
| Downloader.ArchivedLastStep | downloader_script.py:84-134 | the last link's entry, if any, comes after everything the earlier links produced |
| Downloader.ArchivedPrefixStep | downloader_script.py:84-134 | handling link `i` extends what links `0..i-1` produced by link `i`'s entry, if any |
| Downloader.ArchivedBound | downloader_script.py:84-134 | there are never more entries than links |
| Downloader.ArchivedAppendOnly | downloader_script.py:84-134 | what the first `m` links produced is a prefix of the final archive |
| Downloader.ArchivedSources | downloader_script.py:97-123 | the `j`-th entry is exactly the entry of the link at `Sources[j]`, handled with that link's index |
| Downloader.ArchivedInLinkOrder | downloader_script.py:84-123 | the links the entries come from are in strictly increasing position |
| Downloader.ArchivedNamesDistinct | downloader_script.py:120-123 | no two entries of the archive share a name |
| Downloader.ArchivedComplete | downloader_script.py:97-123 | every link that yields an entry has it in the archive |
| Downloader.ZipThenMissingButton | downloader_script.py:83-134 | a zip download followed by a page without the anchor leaves one entry, `[1]. name.rar` |
| Downloader.FailedLinkAddsNothing | downloader_script.py:86-133 | a link that fails to load, has no anchor or href, or whose request fails leaves the archive as it was |
| Downloader.Download.ArchiveLink | downloader_script.py:97-123 | the archive gains exactly the link's entry, if any, after its earlier entries |
| Downloader.Download.Scrape | downloader_script.py:81-134 | a fresh archive ends holding `Archived(links, outcomes, urlPath)`; the visits are `Visits(links)`; the counter ends at `len(links) + 1` |

## Left out

- The browser is not modelled: starting Firefox, `driver.get`, the 10-second wait for the anchor, reading its `href`, `driver.quit`. Their results are the `LinkOutcome` input.
- The HTTP session is not modelled: copying cookies, the User-Agent header, `session.get`, `raise_for_status`. Their results are also the `LinkOutcome` input. A failure while copying cookies counts as `HttpFailed`.
- `urllib.parse.urlparse` is the `urlPath` input. It is applied to the page link, as in the source; `None` stands for the parser raising.
- The zip format, DEFLATE compression and the `BytesIO` buffer are not modelled. The archive is its sequence of entries. `writestr` is taken never to fail.
- Writing the archive to disk is left out, because it is file I/O (lines 139-141).
- `FileReader.readLines`, `main` and the `file_path`/`save_path` globals are left out, because they are file and process I/O. The links are the constructor's input.
- Every `print` is left out, and so is a `print` that raises, for example on a non-ASCII link when standard output cannot encode it. A raise from the `print` at line 87 is caught at line 132, whose own `print` at line 133 raises again on the same link; that ends the whole run, so `driver.quit()` and the disk write never happen. A raise from the `print` at line 98 makes the link add nothing. The model takes every `print` to succeed. One message also says "Download halted" although the loop goes on.
- `writestr` stores the name through a `ZipInfo`, which cuts it at its first NUL character and, off POSIX, turns `os.sep` into `/`. The model keeps `EntryName` as the stored name. Distinctness would still hold, because the `[index]. ` prefix comes first.
- Downloader.JoinPath: models POSIX `os.path.join` only, without Windows drive letters or backslashes.
- Downloader.LinkEntry: does not model the entry name in its own contract. The name is stated by `ZipEntry`, `LinkEntryCarriesIndex` and the `Naming` lemmas.
- PyStr.ReplaceChar: its contract states only the length. The per-character meaning is the lemma `ReplaceCharAt`.
