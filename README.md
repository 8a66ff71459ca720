# figma-icon-export, modelled in Dafny

The repository ships two command-line scripts. Each reads a design document
from the Figma API, collects the icon nodes of one or more pages, cleans the
icon names, resolves a download URL for each icon and writes the SVG files to
disk.

- `cli.js` handles one configured page. It renames duplicate names, resolves
  every URL in one request and downloads through `downloadImage`.
- `cli-export.js` handles the pages of a configured library. It resolves URLs
  in chunks of 100 ids and downloads through `downloadIcon`, which retries
  failed requests and appends to `download-errors.log`.

This project models the deterministic core of both scripts. The network
becomes parameters: the document response, a function from a list of ids to
an id → URL map, and the sequence of outcomes that download attempts give.

Files:

- `text.dfy` (module `Text`): the whitespace set, `trim`, the part after the
  last separator, ASCII lower-casing and the collapsing of whitespace runs.
- `document.dfy` (module `Document`): the document tree, the icon descriptor,
  child lookup by name and the merge of resolved URLs.
- `traversal.dfy` (module `Traversal`): `traverseNodes`. It is specified by the
  function `Walk` and implemented by `Collector.TraverseNodes`, which pushes
  into the array the closure shares. A second, independent pre-order
  description (`Below`, `IconsOf`) is proved equal to `Walk`.
- `cli.dfy` (module `Cli`): the pieces of `cli.js`.
- `cli_export.dfy` (module `CliExport`): the pieces of `cli-export.js`.

Behaviours of the code that the model keeps as they are:

- `findDuplicates` renames the later of two equal names and leaves the first
  one alone. A third equal name gets the same marked name as the second, so
  names are not made unique.
- In `downloadIcon` only a failed request is retried and, once the retries
  run out, logged. The writer's `error` listener is attached at
  cli-export.js:248. A writer error raised after that rejects the promise the
  `try` block returns without awaiting it, so the `catch` never sees it: it is
  neither retried nor logged.
- In both scripts a category sticks once it is set. Every icon of a page with
  a non-empty name has that name as its category.

## Model

| member | source | states |
|---|---|---|
| Text.LastPart | cli.js:306 | `name.includes('=') ? name.split('=').pop() : name` is a suffix of the name holding no `=`; when it is shorter than the name it starts right after an `=`, so a name without `=` comes back whole |
| Text.CollapseSpacesRun | cli-export.js:56 | `.replace(/\s+/g, '-')` turns a whole whitespace run between two non-space characters into exactly one hyphen |
| Text.CollapseSpacesAppend | cli-export.js:56 | text ending in a non-space is collapsed independently of what follows it |
| Text.CollapseSpacesOfUnspaced | cli-export.js:56 | text without whitespace is left unchanged |
| Cli.RemoveFromName | cli.js:304-308 | the cleaned name is no longer than the name, contains no `=` and neither starts nor ends with whitespace; a name without `=` comes back whole and trimmed |
| Cli.RemoveFromNameTakesLastPart | cli.js:306-307 | with an `=` at position k and none after it, the result is the trimmed text after position k |
| Cli.RemoveFromNameIdempotent | cli.js:304-308 | cleaning a cleaned name changes nothing, so the second cleaning in `downloadImage` of a name already cleaned by `exportIcons` is harmless |
| Cli.RemoveFromNameKeepsDuplicateMarker | cli.js:306-307 | a name ending in `-duplicate-name` still ends in it after cleaning |
| Cli.FindByName | cli.js:125 | `acc.find` finds an icon exactly when one with that name is in the accumulator, and what it finds carries that name |
| Cli.Dedup | cli.js:123-135 | the reduce keeps the length and order of the list, and each element comes out unchanged or with only `-duplicate-name` appended to its name |
| Cli.FindDuplicates | cli.js:123-136 | the in-place pass over the array leaves it equal to the reduce's output and returns the same icons |
| Cli.DedupPrefix | cli.js:124-134 | the output up to any position depends only on the input up to that position |
| Cli.DedupStep | cli.js:124-134 | the reduce over one more element appends that element, renamed exactly when the output so far already holds its name |
| Cli.DedupAt | cli.js:125-134 | an element is renamed exactly when an earlier element of the already-built output has its name, and is untouched otherwise |
| Cli.DedupKeepsFirst | cli.js:124-134 | the first element is never renamed |
| Cli.DedupOfUnique | cli.js:123-135 | a list whose names are all distinct comes back unchanged |
| Cli.DedupOfTriple | cli.js:125-132 | of three icons with one name, the second and third both end up with the same marked name, so names are not made unique |
| Cli.GetPathToFrame | cli.js:138-145 | an empty path gives back the root |
| Cli.Follow | cli.js:142-144 | the node a fully matched path leads to carries the path's last name |
| Cli.GetPathToFrameFollows | cli.js:138-145 | a path whose names are all found leads to its end, and the walk continues from there with the remaining names |
| Cli.GetPathToFrameIsDeepest | cli.js:138-145 | the result is the end of the longest prefix whose names are found, where the next name matches no child; it throws exactly where that node has no `children` |
| Cli.GetFigmaFile | cli.js:147-206 | the fetch gives an error for a failed request, a missing page or a page without icons, and otherwise the walked icons after duplicate renaming |
| Cli.FigmaFileIcons | cli.js:167-196 | a successful fetch gives one icon per component or instance below the page, in pre-order, with the reference path and category; only names can gain the marker |
| Cli.GetImages | cli.js:207-226 | the single request fails exactly when the service fails; otherwise the icons keep their order and each gets the URL the answer gives for its id |
| Cli.DownloadImage | cli.js:228-277 | the download rejects with "Invalid path arguments" exactly when the cleaned name or the category is empty; it succeeds exactly when both are present and the file is written, with the row `<clean name>.svg` and the file size |
| Cli.Download | cli.js:318-322 | the download of one icon rejects with "Invalid path arguments" exactly when the icon's cleaned name or its category is empty, and succeeds exactly when both are present and the file is written, with the row `<clean name>.svg` |
| Cli.DownloadAllSucceeds | cli.js:317-325 | the downloads of all icons give rows exactly when every download succeeds, and then one row per icon |
| Cli.AllOk | cli.js:325 | `Promise.all` yields every value in order exactly when every download succeeds |
| Cli.DownloadAllRows | cli.js:317-328 | when every download succeeds there is one table row per icon, in icon order, named after the icon's cleaned name |
| Cli.FileNameKeepsMarker | cli.js:267 | a file name built from a cleaned name that ends in the marker contains the marker |
| Cli.RenamedIconIsFlagged | cli.js:294 | an icon renamed by `findDuplicates` is flagged as a duplicate in the results table once downloaded |
| Document.FindChild | cli.js:142 | `children.find` gives nothing exactly when no child has the name, and otherwise the first child that has it |
| Document.Annotate | cli.js:216-218 | after `icon.image = images[icon.id]` every icon keeps its place and fields and gets the URL the answer gives for its id, or none |
| Traversal.Collector.TraverseNodes | cli.js:169-185 | the recursive walk appends to the shared array exactly the descriptors `Walk` specifies |
| Traversal.CollectIcons | cli.js:167-187 | a fresh array walked from the page holds exactly `Walk(page)` |
| Traversal.FirstNonEmpty | cli.js:172 | the category chosen along an ancestor chain is its first non-empty name, or "" when all names are empty |
| Traversal.WalkIsReference | cli.js:169-187 | the walk gives one descriptor per component or instance node strictly below the page, in depth-first pre-order, with the parent's name as path and the first non-empty ancestor name as category |
| Traversal.PageNameIsCategory | cli.js:172 | on a page with a non-empty name, every icon's category is the page's name |
| Traversal.WalkFromKeepsCategory | cli.js:172 | once a category is non-empty it is handed down unchanged |
| Traversal.WalkFromTagsPage | cli-export.js:152-158 | every descriptor carries the page it was walked with and no URL yet |
| CliExport.RemoveFromName | cli-export.js:52-57 | the file stem contains no `=`, no whitespace and no upper-case letter |
| CliExport.RemoveFromNameWithoutSeparator | cli-export.js:54-56 | a name without `=` is cleaned whole: trimmed, whitespace runs collapsed to hyphens, lower-cased |
| CliExport.RemoveFromNameJoinsRun | cli-export.js:52-57 | two words without `=` separated by a whitespace run give the two words' stems joined by a single hyphen |
| CliExport.RemoveFromNameTakesLastPart | cli-export.js:54-56 | with an `=` at position k and none after it, only the text after position k is cleaned |
| CliExport.RemoveFromNameIdempotent | cli-export.js:52-57 | cleaning a stem again changes nothing |
| CliExport.RemoveFromNameKeepsVisible | cli-export.js:54-56 | the stem keeps every character of the part after the last `=` that is neither whitespace nor a hyphen, in order and lower-cased |
| CliExport.SanitizePath | cli-export.js:59-61 | the result has the same length, contains no illegal character, replaces each illegal character by a hyphen and keeps every other character |
| CliExport.SanitizePathKeepsLegal | cli-export.js:59-61 | a name comes back unchanged exactly when it contains no illegal character |
| CliExport.GetAllPages | cli-export.js:73-116 | a missing or empty library, a library other than "icons" or "spots", and a missing or empty page list are the three errors; otherwise the page list of the chosen library is returned |
| CliExport.OutputDirectory | cli-export.js:63-65 | the created directory is an entry of `iconsPath` whose name has the page name's length and contains no illegal character |
| CliExport.DownloadDirectoryAsWrittenMatches | cli-export.js:63-71 | downloads land in the created page directory exactly when the page name contains no illegal character |
| CliExport.DownloadDirectoryAsWrittenMissesPage | cli-export.js:235 | for the page "Icons: Outline" the download directory differs from the created one |
| CliExport.DownloadDirectory | cli-export.js:63-71 | the corrected download directory is the one `createOutputDirectory` creates |
| CliExport.GetIconsFromPage | cli-export.js:136-172 | a failed request or a missing page gives no icons; otherwise the page's icons are collected by the walk, tagged with the page |
| CliExport.IconsFromPageTagged | cli-export.js:152-158 | every icon collected from a page is tagged with that page and has no URL yet |
| CliExport.IconsFromPageIsReference | cli-export.js:139-165 | when the page is found, its icons are the descriptors of the component and instance nodes below it, in pre-order, tagged with the page |
| CliExport.FlattenAppend | cli-export.js:221 | `flat()` of the chunks with one more chunk is the old result followed by that chunk |
| CliExport.ChunkIcons | cli-export.js:198-202 | there are ceil(n/100) chunks; chunk j is the slice starting at j*100, holds between 1 and 100 icons, and the chunks joined give back the list |
| CliExport.ChunksFull | cli-export.js:198-202 | every chunk but the last holds exactly 100 icons |
| CliExport.ChunkRequests | cli-export.js:205-206 | one id list per chunk, and list j is the ids of chunk j in order |
| CliExport.ResolveChunks | cli-export.js:205-221 | the chunk requests fail together exactly when one of them fails; otherwise every chunk is annotated with the answer to its own request |
| CliExport.ResolvedAt | cli-export.js:212-221 | icon i of the joined answer is icon i with the URL the answer to chunk i/100 gives for its id |
| CliExport.GetImages | cli-export.js:194-230 | one request per chunk, and request j carries exactly the ids of the icons in chunk j (positions j*100 up to j*100+100), so together they are the icons' ids in order; the run fails exactly when some request fails; otherwise each icon keeps its place and gets the URL its own chunk's answer gives |
| CliExport.DownloadReportNamesFile | cli-export.js:234-246 | whichever attempt writes the file, a download that succeeds is named by the file name `<cleanName>.svg` computed from the icon's name |
| CliExport.DownloadReportOutcome | cli-export.js:241-249 | a download that succeeds has the size some allowed attempt wrote; a rejected one carries the error of some allowed attempt's writer |
| CliExport.DownloadReportGivesUp | cli-export.js:250-263 | when all retries + 1 allowed attempts are failed requests, the download gives up and logs one line with the last error |
| CliExport.DownloadReportSettlesAt | cli-export.js:244-255 | the first allowed attempt that is not a failed request settles the download, and nothing is logged |
| CliExport.LogLine | cli-export.js:259-262 | a log line is the timestamp, " - " and the icon name, ": " and the error message, and a line feed |
| CliExport.DownloadReportSettles | cli-export.js:232-265 | the first attempt among the retries + 1 allowed that is not a failed request settles the download and nothing is logged; when all of them fail the download gives up and logs one line with the last error |
| CliExport.DownloadReportLogsOnGivingUp | cli-export.js:250-263 | at most one line is logged, and one is logged exactly when the download gives up |
| CliExport.RetrySucceedsOnThirdAttempt | cli-export.js:251-255 | two failed requests followed by a written file give the download and log nothing |
| CliExport.RetryGivesUpAfterFourFailures | cli-export.js:232-263 | with the default three retries, four failed requests give up and log one line with the fourth error |
| CliExport.ErrorLog.Append | cli-export.js:259-262 | appending adds exactly one line at the end of the log |
| CliExport.DownloadIcon | cli-export.js:232-265 | the recursive retry settles as `DownloadReport` says for the file name `<stem>.svg` of the icon and appends exactly its logged lines; the file it writes is in the corrected page directory `DownloadDirectory`, not the raw one of line 235 (see Findings) |

## Left out

- HTTP requests (`figmaClient.get`, `axios.get`) and stream piping. They are parameters: the document response, the image service as a function from ids to an optional id → URL map, and the outcome of each transfer or attempt. The URL passed to `downloadImage` and `downloadIcon` is therefore not modelled.
- File sizes from `fs.statSync`. They are part of the transfer outcome.
- `fs.appendFileSync` and the timestamp from `new Date()`. The log is a sequence of lines, and the timestamp is a parameter.
- The empty file that `createWriteStream` leaves behind after a failed attempt.
- A writer error raised before the `error` listener is attached (cli-export.js:237-248, cli.js:250-271), while the request is still pending. Opening a file in a directory that does not exist is one such error, and a cleaned name containing `/` gives another. With no listener the error is an uncaught exception that ends the process. The model has no outcome for this crash: `WriterFailed` and `WriteError` stand only for errors reported once the listener is attached.
- CliExport.DownloadIcon: writes into the corrected directory `DownloadDirectory`, the sanitized page directory that `createOutputDirectory` creates. Line 235 uses the raw page name, which `DownloadDirectoryAsWritten` models (see Findings).
- `Promise.all` concurrency. Requests and downloads are modelled in order, which is the order of the results.
- Config loading, prompts, JSON parsing and the `.gitignore` update.
- `deleteIcons`, `mkdirp` and the normalisation of `.` and `..` done by `path.resolve` and `path.join`. A path is the directory, a `/` and the name.
- `createOutputDirectory` is reduced to the directory it creates (`CliExport.OutputDirectory`).
- `formatSize`, which uses floating point, and the table and spinner rendering. Only the duplicate flag of a table row is modelled.
- `process.exit`. It becomes an error result.
- The promise that is never resolved when the page is missing in `cli.js`. It becomes the error `PageNotFound`.
- The composition in `exportIcons` of both scripts. Each stage is modelled, and so are the download rows of `cli.js`.
- `findDuplicates` is modelled for the property `name` only, the one every call uses.
- Whitespace is the ASCII set: space, tab, line feed, carriage return, vertical tab and form feed. Lower-casing is ASCII only. Full Unicode `trim`, `\s` and `toLowerCase` are not modelled.
- CliExport.GetImages: the icons are values, so the in-place assignment of `icon.image` to the objects shared with the caller's list is not modelled.

## Findings

| source | as written | input that shows it | evidently intended | confidence | as-written member | corrected member |
|---|---|---|---|---|---|---|
| cli-export.js:235 | `downloadIcon` writes into `iconsPath/<page>` with the raw page name, while `createOutputDirectory` (cli-export.js:63-71) creates `iconsPath/<sanitizePath(page)>` | page "Icons: Outline": the created directory is "Icons- Outline", the downloads go to "Icons: Outline", which nothing creates | downloads go into the directory that was created | not executed | CliExport.DownloadDirectoryAsWrittenMissesPage | CliExport.DownloadDirectory |
