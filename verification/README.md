# Log viewer controller, modelled in Dafny

This project models the core of a small web log viewer: the controller that lists the `.log`
files of a log directory, turns a file name into an HTML element id, returns the lines appended
to a log file since the client's last poll (bounded, filtered by a pattern), and flushes
(truncates) a log file.

- `filename_id.dfy`: `filename2id`. The method `Filename2Id` keeps the characters of the
  normalised name that are in the allowed alphabet, one by one in a loop, and is proved equal to
  the specification function `Slug`. The lemmas show what `Slug` does to each character, that it
  distributes over concatenation, that `trim` never affects it, and that it is idempotent.
- `file_list.dfy`: `getFilelist`. The method `GetFilelist` walks the directory listing in a loop
  and is proved equal to the function `FileList`. The lemmas show the list is sound and complete
  for readable regular `.log` files, and that it keeps the directory's order.
- `tail.dfy`: `getNewLines`, written as the function `GetNewLines` over a snapshot of the file
  system. It covers both error answers, the read-length cap, the tail read and the line split.
  It also covers the grep filter, with or without inversion, and the removal of one trailing
  empty line. The lemmas cover:
  - a file that did not grow, or shrank, gives no lines;
  - every read is bounded by the cap;
  - within the cap, exactly the appended bytes are read;
  - every returned line passes the filter, and the lines keep their order;
  - without a filter, the returned lines joined with `"\n"` give back the appended bytes;
  - a worked three-line example.
- `flush.dfy`: `flushAction`. `LogDirectory` is a class whose file map `Flush` updates in
  place. `Flush` is proved against `FlushEffect`. `TailAfterFlush` connects a flush with the
  next poll.
- `php_strings.dfy` and `php_arrays.dfy` model the PHP built-ins the controller calls:
  - `str_replace` of one character;
  - ASCII `strtolower`;
  - `trim` with its default character list;
  - `substr($s, -4)`;
  - `explode` on `"\n"`;
  - `preg_grep` with a pattern given as a predicate;
  - the `end`/`array_pop` step.

  `Implode` (joining with `"\n"`) is not called by the controller. It is the reference inverse
  that the round-trip lemmas check `explode` against.
- `id_alphabet.dfy` holds the allowed-character string of `filename2id` and proves that the
  `strpos` test on it is the range test the loop applies.
- `filesystem.dfy` is the file system as a snapshot: file contents by path, plus the set of
  readable paths.

PHP behaviours the model keeps on purpose:
- `empty("0")` is true, so the file name `"0"` is answered with "No filename specified.".
- A seek to before the start of the file fails and leaves the position at 0. So when the file is
  shorter than the read length, the whole file is read.
- `end([])` is `false`, and `false == ""` holds. `array_pop` on an empty array does nothing, so
  an empty result stays empty.
- When `fopen` fails in `flushAction`, the answer is still "ok" with the file's size, and the
  file is not truncated.
- A read that exceeds `$maxSizeToLoad` (100000) is replaced by half of it (50000 bytes), not
  by the full cap.

Two consequences of the code that a caller may not expect:
- The controller never checks that `logDir + "/" + filename` stays inside the log directory,
  and neither does `LogPath`: a file name holding `../` reaches files outside it.
- A missing or empty keyword gives the pattern `//`, which matches every line. Without
  inversion every line is returned; with inversion, none.

## Model

| member | source | states |
|---|---|---|
| FilenameId.Normalized | Controller/LogviewerController.php:59-61 | the name the loop walks over (dots replaced, lower-cased, trimmed) is never longer than the file name |
| FilenameId.Slug | Controller/LogviewerController.php:58-68 | the id of a file name is never longer than the name and uses only a–z, 0–9 and '-' |
| FilenameId.Filename2Id | Controller/LogviewerController.php:58-69 | the id built by the character loop equals `Slug(filename)`: the characters of the dot-replaced, lower-cased, trimmed name that are in the allowed alphabet, in order |
| IdAlphabet.IdChars | Controller/LogviewerController.php:60 | the allowed-character string as written: u, w, v out of order, '0' twice |
| FilenameId.IsIdChar | Controller/LogviewerController.php:64 | the range test the loop applies in place of `strpos`: a–z, 0–9 or '-' |
| FilenameId.SlugExample | Controller/LogviewerController.php:58-68 | `filename2id("App.Log")` is "app-log" |
| IdAlphabet.InIdCharsIffIdChar | Controller/LogviewerController.php:60-64 | a character occurs in the allowed alphabet string exactly when it is a–z, 0–9 or '-' (the `strpos` test) |
| FilenameId.KeepIdChars | Controller/LogviewerController.php:62-67 | the loop's output is no longer than its input and uses only allowed characters |
| FilenameId.SlugOfChar | Controller/LogviewerController.php:59-65 | per character: '.' becomes '-', an upper-case letter becomes lower case, an allowed character is kept, anything else is dropped |
| FilenameId.SlugConcat | Controller/LogviewerController.php:58-68 | the id of a concatenation is the concatenation of the ids |
| FilenameId.TrimIsInvisible | Controller/LogviewerController.php:61 | `trim` never changes the id: whitespace and NUL are dropped by the filter anyway |
| FilenameId.SlugOfId | Controller/LogviewerController.php:58-68 | a name made only of allowed characters is its own id |
| FilenameId.SlugIdempotent | Controller/LogviewerController.php:58-68 | converting an id again gives the same id |
| FileListing.HasLogSuffix | Controller/LogviewerController.php:39 | the `substr($file, -4) == '.log'` test (characterised by `HasLogSuffixMeansEndsInLog`) |
| FileListing.IsListed | Controller/LogviewerController.php:36-39 | the tests one name must pass: not "." or "..", the ".log" suffix, `is_file` and `is_readable` of the path in the log directory |
| FileListing.EntryFor | Controller/LogviewerController.php:40-49 | the entry for one listed name: id `filename2id($file)`, text and filename the name itself |
| FileListing.FileList | Controller/LogviewerController.php:35-51 | the entries the loop builds from a listing, one per name at most |
| FileListing.GetFilelist | Controller/LogviewerController.php:28-53 | the entries built by the loop over the listing equal `FileList`; a failed `scandir` gives an empty list |
| FileListing.HasLogSuffixMeansEndsInLog | Controller/LogviewerController.php:39 | `substr($file, -4) == '.log'` holds exactly when the name ends in ".log" |
| FileListing.FileListSound | Controller/LogviewerController.php:35-50 | every entry comes from a listed name that ends in ".log" and is a readable regular file; its text and filename are that name and its id is the name's slug |
| FileListing.FileListComplete | Controller/LogviewerController.php:35-50 | every listed readable regular ".log" file has an entry |
| FileListing.FileListConcat | Controller/LogviewerController.php:35-51 | the list of a concatenated listing is the concatenation of the lists |
| FileListing.FileListKeepsOrder | Controller/LogviewerController.php:35-51 | the listed names appear in the same order as in the directory listing |
| FileSystems.LogPath | Controller/LogviewerController.php:148 | the path is the log directory, a '/', then the file name unchanged, with no containment check |
| FileSystems.LogPathInjective | Controller/LogviewerController.php:78 | within one log directory, different file names give different path strings (not necessarily different files) |
| FileSystems.IsFile | Controller/LogviewerController.php:39 | `is_file`: the path names a regular file of the snapshot |
| FileSystems.IsReadable | Controller/LogviewerController.php:39 | `is_readable`: the path is readable by the web server |
| FileSystems.IsReadableFile | Controller/LogviewerController.php:149 | the test `getNewLines` and `flushAction` apply before touching a file: `is_file` and `is_readable` (also at line 80) |
| TailReader.IsMissingFilename | Controller/LogviewerController.php:136 | `is_null($filename)` or `empty($filename)`: no name, the empty name, or the name "0" |
| TailReader.TailResult.Status | Controller/LogviewerController.php:138-194 | "error" for both failures, "ok" otherwise |
| TailReader.TailResult.Message | Controller/LogviewerController.php:139-195 | "No filename specified.", "Cannot read file." or "" |
| TailReader.TailResult.Size | Controller/LogviewerController.php:141-196 | 0 for a failure, the file size for an ok answer |
| TailReader.TailResult.File | Controller/LogviewerController.php:142-199 | '' for a failure, the requested file name for an ok answer |
| TailReader.TailResult.Lines | Controller/LogviewerController.php:143-202 | no lines for a failure (PHP sends the string ''), the filtered lines for an ok answer |
| TailReader.MaxSizeToLoad | Controller/LogviewerController.php:131 | `$maxSizeToLoad = 100000` |
| TailReader.MatchEverything | Controller/LogviewerController.php:182 | the pattern `//` that a missing or empty keyword gives: it matches every line |
| TailReader.Contains | Controller/LogviewerController.php:182 | substring search: the test `/$keyword/` performs for a keyword without regular-expression syntax |
| TailReader.Containing | Controller/LogviewerController.php:182-185 | the pattern `/$keyword/` for such a keyword, as a line predicate |
| TailReader.BytesRead | Controller/LogviewerController.php:172-177 | the bytes one poll reads are always a tail of the file |
| TailReader.ReadLines | Controller/LogviewerController.php:172-177 | the lines read (none when nothing is read) hold no "\n" |
| TailReader.NewLines | Controller/LogviewerController.php:172-192 | the lines a poll returns are no more than the lines read, and each passes the filter (or fails it when inverted) |
| TailReader.ReadLength | Controller/LogviewerController.php:161-168 | the read length never exceeds the cap, and when positive it is at most the growth since the last poll |
| TailReader.ReadTail | Controller/LogviewerController.php:174-176 | the read gives the last `n` bytes of the file, or the whole file when it is shorter |
| TailReader.GetNewLines | Controller/LogviewerController.php:129-205 | a missing or `"0"` name gives "No filename specified."; an unreadable or non-regular file gives "Cannot read file."; both have status error, size 0, file '' and no lines; otherwise the answer is ok, with the current size, the name and its id |
| TailReader.UnchangedOrTruncated | Controller/LogviewerController.php:161-196 | when the file has not grown past the last seen size, the answer is ok with the current size and no lines |
| TailReader.ReadIsBounded | Controller/LogviewerController.php:161-176 | no poll reads more than 100000 bytes; when the growth exceeds it, exactly the last 50000 bytes are read (the whole file if shorter) |
| TailReader.ReadIsExactDelta | Controller/LogviewerController.php:161-176 | when the growth is within the cap, exactly the bytes from the last seen size to the end are read (the whole file for a negative last size) |
| TailReader.ReadLinesSplitBytes | Controller/LogviewerController.php:172-177 | the lines are the "\n"-separated pieces of the bytes read, and joining them gives those bytes back |
| TailReader.FilteredLines | Controller/LogviewerController.php:181-192 | filtering and then dropping one trailing "" gives an order-preserving subsequence of the lines, each passing the filter, equal to the filter's output less at most one final "" |
| TailReader.NewLinesAreFiltered | Controller/LogviewerController.php:178-192 | the returned lines are an order-preserving subsequence of the lines read, each passes the filter (or fails it when inverted), and they are exactly the filter's output less at most one final empty line |
| TailReader.TailLinesAreFiltered | Controller/LogviewerController.php:129-205 | for a readable file, the answer is ok and its lines are filtered and in file order |
| TailReader.RejoinAfterDrop | Controller/LogviewerController.php:176-192 | splitting a non-empty string and dropping a final empty piece gives newline-free lines that join back to the string, less its final "\n" |
| TailReader.UnfilteredNewLines | Controller/LogviewerController.php:181-192 | with the match-everything pattern the filter removes nothing |
| TailReader.UnfilteredNewLinesRejoin | Controller/LogviewerController.php:161-192 | without a filter, for a growth within the cap, the newline-free lines joined with "\n" (plus a trailing "\n" when the file ends in one) are exactly the appended bytes |
| TailReader.UnfilteredLinesRejoin | Controller/LogviewerController.php:129-205 | the same round trip for a whole poll of a readable file |
| TailReader.ThreeLineRead | Controller/LogviewerController.php:172-177 | reading "a\nb\nc\n" from size 0 gives the pieces a, b, c and "" |
| TailReader.ThreeLineGrep | Controller/LogviewerController.php:181-186 | filtering those pieces on "b" keeps b; inverted it keeps a, c and "" |
| TailReader.ThreeLineUnfiltered | Controller/LogviewerController.php:172-192 | without a filter the same read returns a, b and c |
| TailReader.ThreeLineFiltered | Controller/LogviewerController.php:172-192 | filtered on "b" it returns b, and inverted a and c |
| TailReader.ThreeLineExample | Controller/LogviewerController.php:129-205 | the same three results through the whole poll of a file app.log |
| PhpStrings.ReplaceChar | Controller/LogviewerController.php:59 | every '.' is replaced by '-' and every other character is kept, position by position |
| PhpStrings.IsUpper | Controller/LogviewerController.php:61 | the bytes `strtolower` changes: A–Z |
| PhpStrings.LowerChar | Controller/LogviewerController.php:61 | one byte of `strtolower`: an ASCII upper-case letter becomes lower case, every other byte stays |
| PhpStrings.IsTrimChar | Controller/LogviewerController.php:61 | the characters `trim` strips by default: space, tab, newline, carriage return, NUL and vertical tab |
| PhpStrings.ToLower | Controller/LogviewerController.php:61 | every ASCII upper-case letter is lowered and every other character is kept, position by position |
| PhpStrings.TrimLeft | Controller/LogviewerController.php:61 | the result is a suffix of the input; the removed prefix is all trim characters, and the result does not start with one |
| PhpStrings.TrimRight | Controller/LogviewerController.php:61 | the result is a prefix of the input; the removed suffix is all trim characters, and the result does not end with one |
| PhpStrings.Trim | Controller/LogviewerController.php:61 | the result is no longer than the input, neither starts nor ends with a trim character, and a string that already does not is unchanged |
| PhpStrings.SubstrTail | Controller/LogviewerController.php:39 | the last `n` characters, or the whole string when it is shorter |
| PhpStrings.Explode | Controller/LogviewerController.php:176 | splitting gives at least one piece, and no piece holds a "\n" |
| PhpStrings.Implode | Controller/LogviewerController.php:176 | not a call of the controller: joining pieces with "\n", the reference inverse of the `explode` at this line |
| PhpStrings.ImplodeExplode | Controller/LogviewerController.php:176 | joining the pieces of a string with "\n" gives the string back |
| PhpStrings.ExplodeImplode | Controller/LogviewerController.php:176 | splitting the join of newline-free pieces gives the pieces back |
| PhpStrings.ExplodeLastEmpty | Controller/LogviewerController.php:176-190 | the last piece is empty exactly when the string is empty or ends in "\n" |
| PhpArrays.Grep | Controller/LogviewerController.php:181-186 | no more lines than the input, and each kept line matches the pattern (or does not, when inverted) |
| PhpArrays.GrepIsSubsequence | Controller/LogviewerController.php:181-186 | the kept lines are an order-preserving subsequence of the input |
| PhpArrays.GrepMembership | Controller/LogviewerController.php:181-186 | a line is kept exactly when it is in the input and passes the test |
| PhpArrays.GrepConcat | Controller/LogviewerController.php:181-186 | filtering a concatenation is the concatenation of the filtered parts |
| PhpArrays.GrepKeepsAll | Controller/LogviewerController.php:181-186 | when every line passes, nothing is removed |
| PhpArrays.DropTrailingEmpty | Controller/LogviewerController.php:190-192 | the result is a prefix of the input, equal to it unless its last line is empty, in which case exactly that line is removed |
| PhpArrays.DropTrailingEmptyRestores | Controller/LogviewerController.php:190-192 | putting the removed empty line back gives the input |
| Flushing.FlushEffect | Controller/LogviewerController.php:78-90 | for a readable regular file: the answer reports its size, and the file is emptied when `fopen` succeeds; otherwise the answer is an error and nothing changes; other files and readability never change |
| Flushing.LogDirectory.Flush | Controller/LogviewerController.php:75-91 | the new directory state and the answer are those of `FlushEffect` on the old state; readability and every other file are unchanged |
| Flushing.TailAfterFlush | Controller/LogviewerController.php:80-88 | the flush reports the file's size; polling from that size afterwards is ok with no lines and the new size |

## Left out

- `downloadAction` is not part of this model: a thin `BinaryFileResponse` wrapper behind its own
  `is_file`/`is_readable` test.
- `filelistAction` and `tailAction` are not part of this model. They only pass the answers of
  `getFilelist` and `getNewLines` to `json()`. `tailAction` never passes `$invert`, so on that
  route `invert` is always false; the inverted branch is reachable only by another caller of
  the public `getNewLines`. The bundled UI (`Resources/public/js/logfile.js`) always sends
  `q: ''`, so it always gets the match-everything pattern `//`.
- The `timestamp` (`date('c')`) is not modelled: it comes from the clock.
- The echoed keyword `q` is not modelled. Every answer of `getNewLines` carries it back unchanged.
- The `url` and `download` fields, and the constant `status`/`message` fields of list entries,
  are not modelled. They are constants.
- The message text of `flushAction` is not modelled. `FlushResult` keeps only the byte count it
  reports.
- Regular expressions are not modelled. The pattern built from the keyword is a predicate
  parameter. A malformed pattern, for which `preg_grep` warns and returns `false`, is not
  modelled.
- `preg_grep` preserves the keys of its input array. The model keeps only the order of the
  values, so key gaps in the JSON output are not modelled.
- The conversion of the request parameter `size` from a string to a number is not modelled.
  `lastFetchedSize` is an integer.
- A failing `fopen` in `getNewLines`, for a file that `is_readable` reported readable, is not
  modelled. The model reads such a file normally.
- `clearstatcache`, concurrent writers and the race between the size check and the read are not
  modelled. The file system is one snapshot per call.
- File contents are strings of characters standing for bytes. `strtolower` is modelled for ASCII
  only, as in the C locale.
- TailReader.GetNewLines: the contract describes the lines of an ok answer through
  `NewLines` and the lemmas about it, not directly in its own `ensures`.
- FilenameId.Filename2Id: the loop tests membership with `IsIdChar` rather than by scanning the
  alphabet string as `strpos` does. `IdAlphabet.InIdCharsIffIdChar` proves the two tests agree.
- Paths are compared as strings. Names that resolve to the same file (`.`, `..`, symbolic links)
  are separate keys of the file map. So `FlushEffect`'s "other files unchanged" holds per path
  string, not per file on disk.
- The web UI scripts and the bundle registration are not part of this model.
