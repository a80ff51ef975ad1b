# OpenSubtitles downloader: a verified model of its core

The downloader walks a directory tree, picks out the movie files (`.avi` and
`.mkv`, in any case), computes the OpenSubtitles movie hash of each, asks the
OpenSubtitles XML-RPC service for English subtitles matching those hashes,
selects which of the returned subtitles to fetch, and saves each one beside
every movie with its hash as `<movie name without extension>.srt`.

This project models the deterministic logic of `src/opensubtitles.py` and
proves properties of it:

- `moviehash.dfy` (module `MovieHash`): `hashFile`. The file is a byte source
  that may fail to open or fail on given offsets. `HashFile` runs the two
  word-by-word loops of the source, masking to 64 bits after each signed
  add. It is proved equal to a reference definition: the size plus both
  windows' unsigned word sums, reduced modulo 2^64 once. The same module
  proves the 16-digit lowercase hex rendering, the size threshold, and that
  the middle of the file is ignored.
- `filenames.dfy` (module `FileNames`): the movie-file test of the
  directory walk, and the `.srt` path built with POSIX `os.path.splitext` and
  `os.path.join`.
- `search.dfy` (module `SubtitleSearch`): `search_subtitles` and
  `check_status`. It covers the request, the status check, dropping records
  with SubBad 1, and the adjacent-repeat loop with `list.remove`. It also
  covers the nested loop that decides which subtitle is written to which
  path, and the files left on disk when a later write replaces an earlier
  one. The class relies on the server sorting its answer by movie hash.
  On such an answer the filtered list stays grouped by hash, and the loop
  keeps the first good subtitle of each hash, one subtitle per hash. On an
  unsorted answer that repeats a subtitle, list.remove can take an earlier
  copy instead.
- `wrappers.dfy`: the `Option` type.

The server's answer is a parameter (`Response`). The file writes are
returned as an ordered list of `Write(path, subId)`, and `Saved` folds that
list into the final file contents.

## Model

| member | source | states |
|---|---|---|
| `MovieHash.Word` | src/opensubtitles.py:140-141 | an 8-byte word read at a position, least significant byte first, is below 2^64 |
| `MovieHash.Signed64` | src/opensubtitles.py:141 | `'q'` reads the word as a signed 64-bit value, equal to the unsigned word or that minus 2^64 |
| `MovieHash.Mask64` | src/opensubtitles.py:143 | `& 0xFFFFFFFFFFFFFFFF` yields a 64-bit value congruent to its input modulo 2^64, for either sign |
| `MovieHash.Max` | src/opensubtitles.py:145 | the seek offset `max(0, filesize-65536)` is the larger of its two arguments |
| `MovieHash.MaskedAdd` | src/opensubtitles.py:141-143 | adding a signed word to the masked accumulator and masking equals adding the unsigned word modulo 2^64 |
| `MovieHash.AddChunk` | src/opensubtitles.py:139-150 | one 8192-word loop succeeds iff no offset of its 65536-byte window fails, and then yields (start value + unsigned window sum) mod 2^64 |
| `MovieHash.ReferenceHash` | src/opensubtitles.py:131-150 | no contract of its own: the size plus the unsigned word sums of the first and the last 65536 bytes, modulo 2^64 once; `AddChunk` and `HashFile` are proved to compute it with the source's signed, masked steps, and `MiddleBytesIgnored` shows it reads nothing else |
| `MovieHash.HashOf` | src/opensubtitles.py:121-156 | no contract of its own: IOError when the file cannot be opened or a read in either window fails, SizeError below 131072 bytes, otherwise the reference hash; `HashFile` returns its rendering and `SizeThreshold` pins down the size cases |
| `MovieHash.HashFile` | src/opensubtitles.py:121-156 | hashFile returns the rendering of `HashOf`: "IOError" when the file cannot be opened or a read fails, "SizeError" below 131072 bytes, otherwise 16 hex digits of (size + first window + last window) mod 2^64 |
| `MovieHash.HexDigits` | src/opensubtitles.py:153 | the n-digit rendering has length n and only lowercase hex digits |
| `MovieHash.HexDigitsRoundTrip` | src/opensubtitles.py:153 | reading back the n digits gives the value modulo 16^n |
| `MovieHash.Hex16` | src/opensubtitles.py:153 | `"%016x"` gives exactly 16 lowercase hex digits; `HexDigitsRoundTrip` with `Pow16Is2To64` shows they read back as the value |
| `MovieHash.Render` | src/opensubtitles.py:136-156 | no contract of its own: the string hashFile returns, "SizeError" (line 137), the 16 digits (line 153) or "IOError" (line 156); `RenderedHashFormat` shows a hash never renders as a sentinel |
| `MovieHash.Pow16Is2To64` | src/opensubtitles.py:153 | sixteen hex digits cover exactly the 64-bit range |
| `MovieHash.RenderedHashFormat` | src/opensubtitles.py:153 | a hash renders as exactly 16 lowercase zero-padded hex digits that read back as the hash, never equal to "SizeError" or "IOError" |
| `MovieHash.SizeThreshold` | src/opensubtitles.py:136-137 | a file below 131072 bytes gives SizeError whatever its content; a readable file is hashed iff it has at least 131072 bytes; the two windows then do not overlap |
| `MovieHash.ChunkSumLocal` | src/opensubtitles.py:139-150 | a window's word sum depends only on the bytes of that window |
| `MovieHash.MiddleBytesIgnored` | src/opensubtitles.py:136-150 | two files of equal size whose first and last 65536 bytes and read faults there agree get the same hash, whatever lies in between |
| `FileNames.Lower` | src/opensubtitles.py:28 | `str.lower` keeps the length and lower-cases each character |
| `FileNames.IsMovieFile` | src/opensubtitles.py:28 | no contract of its own: the lower-cased name ends in ".avi" or ".mkv"; `IsMovieFileSpelledOut` characterises it character by character, and `Mp4Skipped` and `ExtensionChars` follow from it |
| `FileNames.IsMovieFileSpelledOut` | src/opensubtitles.py:28 | a file is taken as a movie iff its name ends in a dot and then "avi" or "mkv" with each letter in either case |
| `FileNames.Mp4Skipped` | src/opensubtitles.py:28 | a ".mp4" file, in any mix of cases, is not taken as a movie: no name whose last four characters end in '4' is |
| `FileNames.ExtensionChars` | src/opensubtitles.py:28 | a movie name ends in a dot followed by three characters that are neither dots nor '/' |
| `FileNames.LastIndexOf` | src/opensubtitles.py:101 | the last position of a character, or -1 when it does not occur, as splitext searches for the separator and the dot |
| `FileNames.SplitExtRoot` | src/opensubtitles.py:101 | no contract of its own: the root part of POSIX `os.path.splitext`; `SplitAtDot`, `SplitMovieName` and `DotOnlyStemKeepsExtension` pin down where it cuts |
| `FileNames.Join` | src/opensubtitles.py:101 | no contract of its own: POSIX `os.path.join` of two parts; `JoinEndsWith` covers its three cases and `SubtitleBesideMovie` gives the result for a subtitle name |
| `FileNames.SrtPath` | src/opensubtitles.py:101 | no contract of its own: the directory joined with the `splitext` root of the name plus ".srt"; `SubtitleBesideMovie`, `SrtPathEndsWithSrt` and `SiblingsShareSubtitle` pin it down |
| `FileNames.SplitAtDot` | src/opensubtitles.py:101 | splitext on a name without '/' cuts at its last dot iff a character other than a dot comes before that dot, and otherwise keeps the whole name |
| `FileNames.JoinEndsWith` | src/opensubtitles.py:101 | joining a directory in front of a name keeps the name's ending |
| `FileNames.SplitMovieName` | src/opensubtitles.py:101 | splitext cuts a movie name just before its four-character extension when something other than dots comes before it |
| `FileNames.SubtitleBesideMovie` | src/opensubtitles.py:101 | the subtitle path is the directory joined with the name minus its extension plus ".srt", with a '/' added only when the directory is non-empty and lacks one |
| `FileNames.DotOnlyStemKeepsExtension` | src/opensubtitles.py:101 | for a name like ".avi" or "..mkv" splitext does not split, so ".srt" is appended to the whole name |
| `FileNames.SrtPathEndsWithSrt` | src/opensubtitles.py:101 | every subtitle path ends in ".srt" |
| `FileNames.SiblingsShareSubtitle` | src/opensubtitles.py:101 | "film.avi" and "film.mkv" in one directory get the same subtitle path |
| `SubtitleSearch.Upper` | src/opensubtitles.py:118 | `str.upper` keeps the length and upper-cases each character |
| `SubtitleSearch.StatusOk` | src/opensubtitles.py:118 | no contract of its own: the upper-cased status equals "200 OK"; `StatusOkSpelledOut` characterises it |
| `SubtitleSearch.StatusOkSpelledOut` | src/opensubtitles.py:118-119 | a status is accepted iff it is "200 " followed by "ok" with each letter in either case |
| `SubtitleSearch.BuildSearch` | src/opensubtitles.py:65-74 | the request has one English entry per movie, in movie order, whatever its hash; a single entry is sent twice; no movie gives an empty request |
| `SubtitleSearch.GoodSubtitles` | src/opensubtitles.py:84-87 | keeps at most one subtitle per record; `GoodSubtitlesMembers` and `GoodSubtitlesAppend` say exactly which ones and in what order |
| `SubtitleSearch.CollectGood` | src/opensubtitles.py:83-87 | the filtering loop yields `GoodSubtitles` of the records |
| `SubtitleSearch.GoodSubtitlesAppend` | src/opensubtitles.py:84-87 | filtering distributes over concatenation, so the kept records keep their relative order |
| `SubtitleSearch.GoodSubtitlesMembers` | src/opensubtitles.py:84-87 | a subtitle is kept iff some record with SubBad other than 1 stands for it |
| `SubtitleSearch.FirstIndex` | src/opensubtitles.py:93 | list.remove finds the first position holding the value |
| `SubtitleSearch.RemoveFirst` | src/opensubtitles.py:93 | list.remove deletes one copy of the value and shortens the list by one |
| `SubtitleSearch.Repeats` | src/opensubtitles.py:91-93 | the subtitles handed to list.remove while visiting the first n positions are copies of subtitles among those n |
| `SubtitleSearch.RepeatsCount` | src/opensubtitles.py:91-93 | one subtitle is removed per position whose hash equals its predecessor's |
| `SubtitleSearch.StillPresent` | src/opensubtitles.py:93 | when the loop reaches a repeat, a copy of it is still in the list, so list.remove never raises |
| `SubtitleSearch.Sweep` | src/opensubtitles.py:89-94 | after each step the copy has lost exactly the repeats seen so far, as a multiset, and is that much shorter |
| `SubtitleSearch.Downloadable` | src/opensubtitles.py:89-94 | the dedup result is the filtered list minus one copy of each repeat, of length \|filtered\| minus the number of repeats |
| `SubtitleSearch.DropRepeats` | src/opensubtitles.py:89-94 | the loop with `hash` and list.remove yields `Downloadable` |
| `SubtitleSearch.SweepNoRepeats` | src/opensubtitles.py:89-94 | with no two neighbours sharing a hash, the list is left as it is |
| `SubtitleSearch.CollapseRuns` | src/opensubtitles.py:89-94 | no contract of its own: the first subtitle of each run of equal hashes, in order, the reference the dedup loop is compared with; `RunHeadsMembers`, `RunHeadsAlternate` and `RunHeadsKeepHashes` characterise it |
| `SubtitleSearch.RunHeads` | src/opensubtitles.py:89-94 | the run heads of a non-empty prefix are non-empty, and the last of them carries the hash of the prefix's last position |
| `SubtitleSearch.RunHeadsAlternate` | src/opensubtitles.py:89-94 | after keeping only run heads, neighbours have different hashes |
| `SubtitleSearch.RunHeadsMembers` | src/opensubtitles.py:89-94 | a subtitle is a run head iff it starts a run of equal hashes |
| `SubtitleSearch.RunHeadsKeepHashes` | src/opensubtitles.py:89-94 | keeping run heads loses no hash |
| `SubtitleSearch.DownloadableDistinct` | src/opensubtitles.py:89-94 | when no subtitle occurs twice, the dedup loop keeps exactly the first subtitle of each run, in order |
| `SubtitleSearch.DownloadableGrouped` | src/opensubtitles.py:89-94 | when the filtered list is grouped by hash, the dedup loop keeps exactly the first subtitle of each run of equal hashes, in order, even when a subtitle comes back twice |
| `SubtitleSearch.GroupedHeadsDistinct` | src/opensubtitles.py:89-94 | in a list grouped by hash, no two run heads share a hash |
| `SubtitleSearch.DownloadableOnePerHash` | src/opensubtitles.py:89-94 | on a list grouped by hash, the dedup loop keeps one subtitle per hash |
| `SubtitleSearch.GoodSubtitlesGrouped` | src/opensubtitles.py:84-87 | dropping the records with SubBad 1 from an answer grouped by movie hash leaves a list grouped by hash |
| `SubtitleSearch.SortedAnswerOnePerHash` | src/opensubtitles.py:83-94 | on an answer sorted by movie hash, which the class docstring (lines 11-12) says the downloader relies on, the subtitles downloaded are the first good subtitle of each hash, no two sharing a hash |
| `SubtitleSearch.RemoveTakesEarlierCopy` | src/opensubtitles.py:93 | with an answer not sorted by hash and a subtitle returned twice, [a, x, b, a] with a and b sharing a hash, list.remove drops the first a and gives [x, b, a], not the run heads [a, x, b] |
| `SubtitleSearch.FirstOfHashSurvives` | src/opensubtitles.py:89-94 | the subtitle at the first position of its hash is removed fewer times than it occurs |
| `SubtitleSearch.DownloadableKeepsHashes` | src/opensubtitles.py:89-94 | a hash is carried by a downloadable subtitle iff it is carried by a kept one: dedup never costs a movie its subtitle |
| `SubtitleSearch.PlanWrites` | src/opensubtitles.py:96-104 | the nested loop yields `WritePlan`: for each downloadable subtitle, a write for each movie with its hash, in order |
| `SubtitleSearch.MovieWrites` | src/opensubtitles.py:98-101 | no contract of its own: for one subtitle, a write to the subtitle path of each movie with its hash, in movie order; `MovieWritesMembers` pins down its writes |
| `SubtitleSearch.WritePlan` | src/opensubtitles.py:96-104 | no contract of its own: the writes of each downloadable subtitle in turn; `PlanWrites` computes it with the source's nested loop and `WritePlanMembers` pins down its writes |
| `SubtitleSearch.MovieWritesMembers` | src/opensubtitles.py:98-101 | a subtitle is written exactly to the subtitle paths of the movies with its hash; a subtitle matching no movie is written nowhere |
| `SubtitleSearch.WritePlanMembers` | src/opensubtitles.py:96-104 | the plan holds a write iff one of the downloadable subtitles makes it |
| `SubtitleSearch.Saved` | src/opensubtitles.py:101-104 | no contract of its own: the files left after the writes, a later write to a path replacing an earlier one; `LastWriteWins`, `SavedFromWrite` and `WrittenIsSaved` pin it down |
| `SubtitleSearch.LastWriteWins` | src/opensubtitles.py:101-104 | the last write to a path decides that file's subtitle |
| `SubtitleSearch.SavedFromWrite` | src/opensubtitles.py:101-104 | every saved file holds the subtitle of some write to its path |
| `SubtitleSearch.WrittenIsSaved` | src/opensubtitles.py:101-104 | every path written to ends up saved |
| `SubtitleSearch.SearchSubtitles` | src/opensubtitles.py:63-104 | search_subtitles sends the request above and produces `SearchOutcome`: the status error, no writes for a `False` answer, or the write plan of the deduplicated good subtitles |
| `SubtitleSearch.SearchOutcome` | src/opensubtitles.py:76-104 | no contract of its own: the status error when check_status fails, no writes for a `False` answer, otherwise the write plan of the deduplicated good subtitles; `StatusErrorStops`, `WritesSound` and `WritesComplete` state what it promises |
| `SubtitleSearch.StatusErrorStops` | src/opensubtitles.py:76-77 | the search stops with the status iff the status check fails |
| `SubtitleSearch.WritesSound` | src/opensubtitles.py:83-104 | every write puts at a movie's subtitle path the subtitle of a record with SubBad other than 1 and that movie's hash |
| `SubtitleSearch.DownloadedFor` | src/opensubtitles.py:83-94 | a record with SubBad other than 1 leaves a downloadable subtitle with its hash |
| `SubtitleSearch.PlannedFor` | src/opensubtitles.py:96-101 | a downloadable subtitle is written to the subtitle path of each movie with its hash |
| `SubtitleSearch.WritesComplete` | src/opensubtitles.py:83-104 | every movie with a matching record of SubBad other than 1 gets a subtitle file saved at its subtitle path |

## Left out

- The directory walk (`os.walk`), `os.path.getsize` and the building of the
  movie list: file system access. A `Movie` carries the directory, name,
  hash and size it would have been given.
- Login, logout and the SearchSubtitles and DownloadSubtitles calls: network
  access. The search answer is the `Response` parameter.
- The base64 decoding and zlib decompression of a downloaded subtitle:
  library calls. A write records the subtitle id in place of the bytes.
- Opening, writing and closing the `.srt` files: file I/O. The writes are an
  ordered list and `Saved` gives the resulting files.
- Console output, the command-line entry point, and the class-level movie
  list shared between instances: user interface and plumbing.
- SplitExtRoot/Join: follow the POSIX path rules. Windows rules, with `\` as a
  separator and drive letters, are not modelled.
- Word: decodes the 8 bytes least significant first. Format `'q'` reads in
  the host's byte order, so a big-endian host is not modelled.
- The `struct.error` raised by a short read and the file handle left open on
  the size error path. The model reads a file of the size it reports.
- SearchSubtitles: each download is taken to succeed. A failed status on a
  DownloadSubtitles answer, which would stop the loop midway, is not
  modelled.
- SearchSubtitles: SubBad is taken as an integer. The ValueError that `int()`
  raises on a malformed value is not modelled.
- Upper: handles ASCII letters only, where Python upper-cases all of Unicode.
  A status with non-ASCII letters is not modelled.
- Lower: handles ASCII letters only, where Python lower-cases all of Unicode.
  A file name with non-ASCII letters is not modelled.
- HashFile: the reads are modelled as failing at given offsets of an
  otherwise fixed content. A file that changes while being hashed is not
  modelled.
